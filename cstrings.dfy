/** NUL-terminated character buffers as main.cpp uses them for the rows of
    dipStates: strncpy fills a fixed-size row and the JSON builder reads the
    row back as a C string. */
module CStrings {
  import opened Wrappers

  const NUL: char := 0 as char

  /** The row strncpy(dst, src, n) leaves in an n-byte buffer: the characters
      of src (a literal, so without an embedded NUL) and NUL padding up to n.
      When |src| >= n no NUL is written at all. */
  function Strncpy(src: string, n: nat): (row: seq<char>)
  {
    seq(n, k requires 0 <= k < n => if k < |src| then src[k] else NUL)
  }

  /** The C string a buffer holds: everything before its first NUL; None when
      the buffer has no NUL, where a C reader would run past its end. */
  function CString(row: seq<char>): (s: Option<string>)
    ensures s.Some? <==> NUL in row
    ensures s.Some? ==> |s.value| < |row| && row[|s.value|] == NUL
    ensures s.Some? ==> NUL !in s.value && s.value == row[..|s.value|]
  {
    if row == [] then None
    else if row[0] == NUL then Some([])
    else match CString(row[1..]) {
      case None => None
      case Some(t) => Some([row[0]] + t)
    }
  }

  /** strncpy terminates the buffer exactly when the source and its NUL fit,
      and then the buffer reads back as the source string. */
  lemma StrncpyReadsBack(src: string, n: nat)
    requires NUL !in src
    ensures NUL in Strncpy(src, n) <==> |src| < n
    ensures |src| < n ==> CString(Strncpy(src, n)) == Some(src)
  {
    var row := Strncpy(src, n);
    if |src| < n {
      assert row[|src|] == NUL;
      assert row[..|src|] == src;
    } else {
      forall k | 0 <= k < n ensures row[k] != NUL {
        assert row[k] == src[k];
      }
    }
  }
}
