/** Whitespace and trimming as the Rust standard library defines them. */
module UnicodeText {
  import opened Prelude

  /** Unicode's White_Space property. */
  predicate IsWhitespace(c: char) {
    || '\U{9}' <= c <= '\U{D}' || c == ' ' || c == '\U{85}' || c == '\U{A0}' || c == '\U{1680}'
    || '\U{2000}' <= c <= '\U{200A}' || c == '\U{2028}' || c == '\U{2029}' || c == '\U{202F}'
    || c == '\U{205F}' || c == '\U{3000}'
  }

  /** The twenty-five code points, one by one. */
  lemma {:induction false} WhitespaceIsListed(c: char)
    ensures IsWhitespace(c) <==>
            c as int in {9, 10, 11, 12, 13, 32, 133, 160, 5760, 8192, 8193, 8194, 8195, 8196, 8197, 8198, 8199, 8200,
                         8201, 8202, 8232, 8233, 8239, 8287, 12288}
  {
  }

  function TrimStart(s: string): string {
    if |s| > 0 && IsWhitespace(s[0]) then TrimStart(s[1..]) else s
  }

  function TrimEnd(s: string): string {
    if |s| > 0 && IsWhitespace(s[|s| - 1]) then TrimEnd(s[..|s| - 1]) else s
  }

  function Trim(s: string): string {
    TrimEnd(TrimStart(s))
  }

  function StripPrefix(s: string, prefix: string): Option<string> {
    if prefix <= s then Some(s[|prefix|..]) else None
  }

  predicate IsBlank(s: string) {
    forall c :: c in s ==> IsWhitespace(c)
  }

  /** A text that begins and ends visibly loses only the line end behind it. */
  lemma {:induction false} TrimLine(s: string, eol: string)
    requires |s| > 0 && !IsWhitespace(s[0]) && !IsWhitespace(s[|s| - 1]) && IsBlank(eol)
    ensures Trim(s + eol) == s
  {
    TrimEndOfLine(s, eol);
  }

  lemma {:induction false} TrimEndOfLine(s: string, eol: string)
    requires IsBlank(eol) && (|s| > 0 ==> !IsWhitespace(s[|s| - 1]))
    ensures TrimEnd(s + eol) == s
  {
    if |eol| == 0 {
      assert s + eol == s;
    } else {
      assert (s + eol)[..|s + eol| - 1] == s + eol[..|eol| - 1];
      TrimEndOfLine(s, eol[..|eol| - 1]);
    }
  }

  lemma {:induction false} TrimBlank(eol: string)
    requires IsBlank(eol)
    ensures Trim(eol) == ""
  {
    if |eol| == 0 {
    } else {
      assert eol[0] in eol;
      TrimBlank(eol[1..]);
    }
  }
}
