// Zero-terminated strings, as the characters of a buffer from a pointer on.
module CString {

  // The characters before the terminating zero.
  function CText(buf: seq<int>): (text: seq<int>)
    requires 0 in buf
    ensures |text| < |buf| && buf[..|text|] == text && buf[|text|] == 0 && 0 !in text
  {
    if buf[0] == 0 then [] else [buf[0]] + CText(buf[1..])
  }

  // The text of a string stored with its terminator.
  lemma {:induction false} TextOfTerminated(text: seq<int>)
    requires 0 !in text
    ensures CText(text + [0]) == text
  {
    if text != [] {
      assert (text + [0])[1..] == text[1..] + [0];
      TextOfTerminated(text[1..]);
    }
  }
}
