/**
 The output that canonicalizers write to (CanonOutputT in url_canon.h), as the list of bytes it holds. Module
 RawBuffer shows that the array behind it behaves like this list.
 */
module CanonOutputs {
  import opened Bytes

  class CanonOutput {
    var text: bytes

    constructor ()
      ensures text == []
    {
      text := [];
    }

    function Length(): nat
      reads this
    {
      |text|
    }

    function At(offset: nat): byte
      requires offset < |text|
      reads this
    {
      text[offset]
    }

    method Set(offset: nat, ch: byte)
      requires offset < |text|
      modifies this
      ensures text == old(text)[offset := ch]
    {
      text := text[offset := ch];
    }

    method PushBack(ch: byte)
      modifies this
      ensures text == old(text) + [ch]
    {
      text := text + [ch];
    }

    method Append(str: bytes)
      modifies this
      ensures text == old(text) + str
    {
      text := text + str;
    }

    /** Only ever used to back up. */
    method SetLength(newLen: nat)
      requires newLen <= |text|
      modifies this
      ensures text == old(text)[..newLen]
    {
      text := text[..newLen];
    }

    method AppendEscapedChar(ch: byte)
      modifies this
      ensures text == old(text) + Escaped(ch)
    {
      PushBack(PERCENT);
      PushBack(HexCharLookup(ch / 16));
      PushBack(HexCharLookup(ch % 16));
    }
  }

  /** The loops that push a text one character after the other. */
  method PushEach(str: bytes, output: CanonOutput)
    modifies output
    ensures output.text == old(output.text) + str
  {
    ghost var before := output.text;
    for ch := 0 to |str|
      invariant output.text == before + str[..ch]
    {
      output.PushBack(str[ch]);
    }
    assert str[..|str|] == str;
  }
}
