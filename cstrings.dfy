/** C strings as the node constructor uses them: a `char*` argument is a
    buffer of characters that ends at its first NUL, and `strcpy` copies
    everything before that NUL, then the NUL itself. */
module CStrings {

  /** The character that terminates every C string. */
  const Nul: char := '\0'

  /** The string `strcpy` copies out of `buf`: every character before the
      first NUL. `strcpy` demands that its source is terminated, so `buf`
      must hold a NUL; the result is a prefix of `buf` that holds no NUL
      and is followed in `buf` by one. */
  function Contents(buf: seq<char>): (s: string)
    requires Nul in buf
    ensures |s| < |buf| && buf[|s|] == Nul
    ensures s == buf[..|s|]
    ensures Nul !in s
  {
    if buf[0] == Nul then []
    else
      assert Nul in buf[1..] by { var k :| 0 <= k < |buf| && buf[k] == Nul; assert buf[1..][k - 1] == Nul; }
      [buf[0]] + Contents(buf[1..])
  }

  /** The copy stops at the first NUL: `Contents` is exactly the part of
      `buf` in front of the first terminator, whatever `buf` holds after it. */
  lemma ContentsIsPrefixBeforeFirstNul(buf: seq<char>, k: nat)
    requires k < |buf| && buf[k] == Nul
    requires Nul !in buf[..k]
    ensures Contents(buf) == buf[..k]
  {
  }

  /** What follows the terminator is never read: appending anything to a
      terminated buffer leaves the copied string as it was. */
  lemma {:induction false} ContentsIgnoresTail(buf: seq<char>, tail: seq<char>)
    requires Nul in buf
    ensures Nul in buf + tail
    ensures Contents(buf + tail) == Contents(buf)
  {
    var s := Contents(buf);
    assert (buf + tail)[|s|] == Nul;
    assert (buf + tail)[..|s|] == buf[..|s|];
    ContentsIsPrefixBeforeFirstNul(buf + tail, |s|);
  }

  /** The C layout of a string without NUL characters: its characters,
      then the terminator. Copying it back with `strcpy` gives the whole
      string, so a name passed to the constructor is copied in full. */
  function Terminated(s: string): (buf: seq<char>)
    requires Nul !in s
    ensures Nul in buf && |buf| == |s| + 1
    ensures Contents(buf) == s
  {
    var buf := s + [Nul];
    assert buf[|s|] == Nul;
    assert buf[..|s|] == s;
    ContentsIsPrefixBeforeFirstNul(buf, |s|);
    buf
  }

  /** The other direction of the round trip: laying out what `strcpy`
      copied gives back the buffer up to and including its first NUL,
      which is all of the buffer that `strcpy` reads. */
  lemma TerminatedUndoesContents(buf: seq<char>)
    requires Nul in buf
    ensures Terminated(Contents(buf)) == buf[..|Contents(buf)| + 1]
  {
  }

  /** `strcpy` writes the copied characters and a NUL at the start of the
      destination and leaves the rest of it as it was. Read back as a C
      string, the destination then holds exactly what the source held, so
      the copy in the node can be treated as a plain string. */
  lemma {:induction false} CopiedNameReadsBack(src: seq<char>, rest: seq<char>)
    requires Nul in src
    ensures Nul in Terminated(Contents(src)) + rest
    ensures Contents(Terminated(Contents(src)) + rest) == Contents(src)
  {
    ContentsIgnoresTail(Terminated(Contents(src)), rest);
  }
}
