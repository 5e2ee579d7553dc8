/** C strings in buffers. */
module CStrings {
  const NUL: char := '\0'

  /** The C string held by a buffer: everything before the first NUL. */
  function CString(buffer: seq<char>): string {
    if buffer == [] || buffer[0] == NUL then [] else [buffer[0]] + CString(buffer[1..])
  }

  lemma {:induction false} CStringReads(text: string, buffer: seq<char>)
    requires NUL !in text && text + [NUL] <= buffer
    ensures CString(buffer) == text
  {
    if text == [] {
    } else {
      assert buffer[0] == text[0] && text[0] in text;
      assert text[1..] + [NUL] <= buffer[1..] by {
        assert (text + [NUL])[1..] == text[1..] + [NUL];
      }
      forall c | c in text[1..] ensures c in text {}
      CStringReads(text[1..], buffer[1..]);
      assert [text[0]] + text[1..] == text;
    }
  }
}
