/** The growing character buffer that the scanner and the parser collect strings in. */
module StringBuffer {

  const STRING_BLOCK_SIZE: nat := 64

  class StrBuf {
    var text: array<char>  // of length 0 for the null pointer; its length is the capacity
    var length: nat

    predicate Valid()
      reads this, text
    {
      && text.Length % STRING_BLOCK_SIZE == 0
      && (if text.Length == 0 then length == 0 else length < text.Length && text[length] == '\0')
    }

    function Contents(): string
      requires Valid()
      reads this, text
    {
      text[..length]
    }

    constructor ()
      ensures Valid() && fresh(text) && Contents() == "" && text.Length == 0
    {
      text := new char[0];
      length := 0;
    }

    /** `strbuf_release`: the buffer gives its text away and starts afresh. */
    method Release() returns (released: array<char>, n: nat)
      requires Valid()
      modifies this
      ensures Valid() && fresh(text) && Contents() == ""
      ensures released == old(text) && n == old(length) && n <= released.Length
      ensures n < released.Length ==> released[n] == '\0'
      ensures released[..n] == old(Contents())
    {
      released, n := text, length;
      text := new char[0];
      length := 0;
    }

    /** `strbuf_append`: the buffer grows to a multiple of the block size when the text and its
        terminator do not fit. */
    method Append(more: string)
      requires Valid()
      modifies this, text
      ensures Valid() && (text == old(text) || fresh(text))
      ensures Contents() == old(Contents()) + more
      ensures text.Length == old(text.Length) || text.Length < length + 1 + STRING_BLOCK_SIZE
    {
      var newLength := length + |more| + 1;
      if newLength > text.Length {
        Grow((newLength + STRING_BLOCK_SIZE - 1) / STRING_BLOCK_SIZE * STRING_BLOCK_SIZE);
      }
      CopyIn(more);
    }

    method Grow(capacity: nat)
      requires length <= text.Length <= capacity
      modifies this`text
      ensures fresh(text) && text.Length == capacity && text[..length] == old(text[..length])
    {
      var bigger := new char[capacity];
      forall k | 0 <= k < length {
        bigger[k] := text[k];
      }
      text := bigger;
    }

    method CopyIn(more: string)
      requires length + |more| < text.Length && text.Length % STRING_BLOCK_SIZE == 0
      modifies this`length, text
      ensures Valid() && length == old(length) + |more|
      ensures Contents() == old(text[..length]) + more
    {
      var i := 0;
      while i < |more|
        modifies text
        invariant 0 <= i <= |more|
        invariant forall k | 0 <= k < length :: text[k] == old(text[k])
        invariant forall k | 0 <= k < i :: text[length + k] == more[k]
      {
        text[length + i] := more[i];
        i := i + 1;
      }
      text[length + |more|] := '\0';
      length := length + |more|;
    }
  }
}
