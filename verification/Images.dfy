/** Decoded RGBA images (include/NeForce/tui/image.hpp), the input of every encoder. */
module Images {
  import opened Bytes

  type int32 = x: int | -0x8000_0000 <= x < 0x8000_0000

  /** Row by row, four bytes a pixel. */
  datatype Image = Image(width: int32, height: int32, rgba: seq<byte>)

  predicate Valid(image: Image) {
    && image.width > 0 && image.height > 0 && |image.rgba| % 4 == 0
    && (|image.rgba| / 4) % image.width == 0
    && (|image.rgba| / 4) / image.width == image.height
  }

  lemma PixelCount(image: Image)
    requires Valid(image)
    ensures |image.rgba| == 4 * (image.width * image.height)
  {
    var pixels := |image.rgba| / 4;
    assert pixels == image.width * (pixels / image.width) + pixels % image.width;
  }

  /** Pixel (x, y) is inside the buffer. */
  lemma InRow(x: int, y: int, width: int, height: int)
    requires 0 <= x < width && 0 <= y < height
    ensures 0 <= y * width + x < width * height
  {
    assert (y + 1) * width <= height * width;
    assert (y + 1) * width == y * width + width;
  }
}
