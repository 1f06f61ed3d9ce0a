/** The alpha pass both pages run on the cut-out image's RGBA pixel buffer: every
    alpha byte below 255 is replaced by `Math.round(alpha * 0.9)`. */
module EdgeSoftening {
  import opened Media
  import JsMath

  /** The alpha of a fully opaque pixel. */
  const Opaque: Byte := 255

  /** `Math.round(a * 0.9)` for a byte `a`. For these 256 values the product computed
      in floating point rounds to the same integer as the exact product `9a/10` (an
      exact half such as 4.5 stays an exact half), so the rule is stated on integers. */
  function NineTenths(a: Byte): (r: Byte)
    ensures 10 * r - 5 <= 9 * a < 10 * r + 5
  {
    JsMath.RoundDivAtMost(9 * a, 10, 255);
    JsMath.RoundDiv(9 * a, 10)
  }

  /** The rule applied to one alpha byte. */
  function SoftenAlpha(a: Byte): (r: Byte)
    ensures a == Opaque ==> r == Opaque
    ensures a < Opaque ==> 10 * r - 5 <= 9 * a < 10 * r + 5
  {
    if a < Opaque then NineTenths(a) else a
  }

  /** The same value as the integer formula `(9a + 5) / 10`. */
  lemma SoftenAlphaClosedForm(a: Byte)
    requires a < Opaque
    ensures SoftenAlpha(a) == (9 * a + 5) / 10
  {
    JsMath.RoundDivUnique(9 * a, 10, (9 * a + 5) / 10);
  }

  /** Softening never raises an alpha, keeps 0 at 0, and makes no other alpha 0;
      it leaves exactly 0..5 and 255 unchanged. */
  lemma SoftenAlphaDecreases(a: Byte)
    ensures SoftenAlpha(a) <= a
    ensures SoftenAlpha(a) == 0 <==> a == 0
    ensures SoftenAlpha(a) == a <==> a <= 5 || a == Opaque
  {
  }

  /** Softening is not idempotent: 200 becomes 180, and a second pass 162. */
  lemma SoftenAlphaTwice()
    ensures SoftenAlpha(200) == 180 && SoftenAlpha(180) == 162
  {
    SoftenAlphaClosedForm(200);
    SoftenAlphaClosedForm(180);
  }

  /** The buffer after the pass, defined pixel by pixel: each group of four bytes
      keeps its colour bytes and has its alpha softened. A trailing group shorter than
      four bytes has no alpha byte (reading `data[i + 3]` past the end gives
      `undefined`, which is not below 255) and is left alone. */
  function Attenuated(s: seq<Byte>): (r: seq<Byte>)
    ensures |r| == |s|
    decreases |s|
  {
    if |s| < 4 then s else s[..3] + [SoftenAlpha(s[3])] + Attenuated(s[4..])
  }

  /** What the pass does at one index: it has the same length, softens the bytes at
      indices 3, 7, 11, ... and leaves every other byte as it was. */
  lemma {:induction false} AttenuatedAt(s: seq<Byte>, k: nat)
    requires k < |s|
    ensures Attenuated(s)[k] == if k % 4 == 3 then SoftenAlpha(s[k]) else s[k]
    decreases |s|
  {
    if |s| >= 4 {
      var head, rest := s[..3] + [SoftenAlpha(s[3])], s[4..];
      assert Attenuated(s) == head + Attenuated(rest);
      if k >= 4 {
        AttenuatedAt(rest, k - 4);
        assert (k - 4) % 4 == k % 4;
        assert rest[k - 4] == s[k];
        assert Attenuated(s)[k] == Attenuated(rest)[k - 4];
      } else {
        assert Attenuated(s)[k] == head[k];
      }
    }
  }

  /** Fully opaque pixels stay opaque and no alpha rises. */
  lemma AttenuatedKeepsOpaque(s: seq<Byte>, k: nat)
    requires k < |s| && k % 4 == 3
    ensures s[k] == Opaque ==> Attenuated(s)[k] == Opaque
    ensures Attenuated(s)[k] <= s[k]
  {
    AttenuatedAt(s, k);
    SoftenAlphaDecreases(s[k]);
  }

  /** Running the pass twice differs from running it once. */
  lemma AttenuatedNotIdempotent()
    ensures Attenuated(Attenuated([0, 0, 0, 200])) != Attenuated([0, 0, 0, 200])
  {
    SoftenAlphaTwice();
    AttenuatedAt([0, 0, 0, 200], 3);
    var once := Attenuated([0, 0, 0, 200]);
    AttenuatedAt(once, 3);
  }

  /** The loop over the pixel buffer, in place: `i` steps over pixels, and the byte at
      `i + 3` is the pixel's alpha. */
  method SoftenEdges(data: array<Byte>)
    modifies data
    ensures data[..] == Attenuated(old(data[..]))
  {
    var i := 0;
    while i < data.Length
      invariant i % 4 == 0 && 0 <= i <= data.Length + 3
      invariant forall k :: 0 <= k < data.Length ==>
        data[k] == if k < i && k % 4 == 3 then SoftenAlpha(old(data[k])) else old(data[k])
    {
      if i + 3 < data.Length && data[i + 3] < Opaque {
        data[i + 3] := NineTenths(data[i + 3]);
      }
      i := i + 4;
    }
    ghost var was := old(data[..]);
    forall k | 0 <= k < data.Length
      ensures data[..][k] == Attenuated(was)[k]
    {
      AttenuatedAt(was, k);
    }
  }
}
