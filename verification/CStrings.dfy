/** C strings: text up to the first NUL. */
module CStrings {

  /** What strcmp sees of a string, and "%s" prints. */
  function UpToNul(s: string): string {
    if s == [] || s[0] == '\0' then [] else [s[0]] + UpToNul(s[1..])
  }

  lemma UpToNulLength(s: string)
    ensures |UpToNul(s)| <= |s|
  {
  }

  /** It ends before the first NUL. */
  lemma {:induction false} UpToNulIs(s: string)
    ensures var n := |UpToNul(s)|;
            n <= |s| && UpToNul(s) == s[..n] && '\0' !in s[..n] && (n < |s| ==> s[n] == '\0')
  {
    if s != [] && s[0] != '\0' {
      UpToNulIs(s[1..]);
      var n := |UpToNul(s)|;
      assert s[..n] == [s[0]] + s[1..][..n - 1];
    }
  }

  lemma {:induction false} NoNul(s: string)
    requires '\0' !in s
    ensures UpToNul(s) == s
  {
    if s != [] {
      NoNul(s[1..]);
    }
  }

  lemma {:induction false} UpToNulSplit(s: string, n: nat)
    requires n <= |s| && '\0' !in s[..n]
    ensures UpToNul(s) == s[..n] + UpToNul(s[n..])
  {
    if n == 0 {
      assert s[0..] == s;
    } else {
      assert s[0] == s[..n][0] && s[1..][..n - 1] == s[..n][1..] && s[1..][n - 1..] == s[n..];
      UpToNulSplit(s[1..], n - 1);
    }
  }

  lemma {:induction false} UpToNulHasNone(s: string)
    ensures '\0' !in UpToNul(s)
  {
    if s != [] && s[0] != '\0' {
      UpToNulHasNone(s[1..]);
    }
  }

  /** The C string in a buffer that starts with the text is the text iff a NUL follows. */
  lemma CStringInBuffer(text: string, s: string)
    requires |text| < |s| && s[..|text|] == text && '\0' !in text
    ensures UpToNul(s) == text + UpToNul(s[|text|..])
    ensures UpToNul(s) == text <==> s[|text|] == '\0'
  {
    UpToNulSplit(s, |text|);
    assert s[|text|..][0] == s[|text|];
  }
}
