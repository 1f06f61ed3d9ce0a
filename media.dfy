/** Values the browser hands to the page: the bytes of a pixel buffer and a selected file. */
module Media {
  /** One element of a `Uint8ClampedArray`: an integer from 0 to 255. */
  type Byte = x: int | 0 <= x < 256

  /** A `File`: its name, its MIME type and its contents; `size` is the number of bytes. */
  datatype ImageFile = ImageFile(name: string, mimeType: string, data: seq<Byte>) {
    function Size(): nat { |data| }
  }
}
