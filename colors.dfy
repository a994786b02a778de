/** Colours of the median-cut quantiser (MedianCut.cpp): three unsigned
    8-bit channels and the brightness the palette is sorted by. */
module Colors {

  /** An unsigned 8-bit channel value (uint8_t). */
  type Byte = x: int | 0 <= x < 256

  /** The channel a group is split along. The source picks it with a
      selector lambda; here it is a value. */
  datatype Channel = Red | Green | Blue

  datatype Color = Color(r: Byte, g: Byte, b: Byte) {

    /** The value of one channel. */
    function Get(ch: Channel): Byte {
      match ch
      case Red => r
      case Green => g
      case Blue => b
    }

    /** The palette's sort key: the plain sum of the three channels. */
    function Brightness(): (s: int)
      ensures 0 <= s <= 3 * 255
      ensures s == Get(Red) + Get(Green) + Get(Blue)
    {
      r + g + b
    }
  }

  /** Two colours that agree on every channel are equal. */
  lemma SameChannels(c: Color, d: Color)
    requires forall ch: Channel :: c.Get(ch) == d.Get(ch)
    ensures c == d
  {
    assert c.Get(Red) == d.Get(Red) && c.Get(Green) == d.Get(Green) && c.Get(Blue) == d.Get(Blue);
  }
}
