/** File names: NUL-terminated strings inside 16-byte arrays. */
module Names {
  import opened Types

  /** The C string stored in an array: the bytes before the first NUL. */
  function CName(stored: seq<byte>): (s: CString)
    ensures |s| <= |stored| && s == stored[..|s|]
    ensures |s| < |stored| ==> stored[|s|] == 0
  {
    if stored == [] || stored[0] == 0 then [] else [stored[0]] + CName(stored[1..])
  }

  /** An entry whose name starts with a byte other than NUL is in use. */
  predicate Used(e: File) {
    e.name != [] && e.name[0] != 0
  }

  /** is_filename_invalid; None is a NULL pointer. */
  predicate Invalid(filename: Option<CString>) {
    filename.None? || filename.value == [] || |filename.value| + 1 > FS_FILENAME_LEN
  }

  lemma NoNul(s: CString)
    ensures forall i :: 0 <= i < |s| ==> s[i] != 0
  {
    assert forall i :: 0 <= i < |s| ==> s[i] in s;
  }

  /** A stored string is determined by any terminated prefix. */
  lemma CNamePrefix(stored: seq<byte>, s: CString)
    requires |s| < |stored| && s == stored[..|s|] && stored[|s|] == 0
    ensures CName(stored) == s
  {
    NoNul(s);
    NoNul(CName(stored));
  }

  /** A terminated array holds a string that leaves room for its terminator. */
  lemma Terminated(stored: seq<byte>)
    requires 0 in stored
    ensures |CName(stored)| < |stored|
  {
    assert CName(stored) == stored ==> 0 !in stored;
  }

  /** The byte at position i of a C string in memory, terminator included. */
  function CharAt(s: CString, i: nat): byte
    requires i <= |s|
  {
    if i < |s| then s[i] else 0
  }

  /** streq returns 0 exactly when the stored name is the given string, and never reads past either
      terminator: the comparison agrees with strcmp. */
  method Streq(stored: seq<byte>, s: CString) returns (r: int)
    requires |stored| == FS_FILENAME_LEN && 0 in stored
    ensures r == if CName(stored) == s then 0 else -1
  {
    Terminated(stored);
    ghost var t := CName(stored);
    NoNul(s);
    NoNul(t);
    var i := 0;
    while i < FS_FILENAME_LEN
      invariant 0 <= i <= |t| && i <= |s|
      invariant t[..i] == s[..i]
    {
      var c2 := CharAt(s, i);
      if stored[i] == 0 && c2 == 0 {
        assert t == t[..i] && s == s[..i];
        return 0;
      } else if stored[i] != c2 {
        return -1;
      }
      assert i < |s|;
      assert t[..i + 1] == t[..i] + [t[i]] && s[..i + 1] == s[..i] + [s[i]];
      i := i + 1;
    }
    return -1;
  }
}
