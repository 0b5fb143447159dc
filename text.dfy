/** String operations the service relies on: case mapping, case-insensitive
    equality, Java's trim, and the SQL LIKE matcher used by the catalog search.
    Case mapping covers ASCII letters only. */
module Text {

  function LowerChar(c: char): char {
    if 'A' <= c <= 'Z' then (c as int + 32) as char else c
  }

  function UpperChar(c: char): char {
    if 'a' <= c <= 'z' then (c as int - 32) as char else c
  }

  /** String.toLowerCase in Java and lower() in SQL. */
  function Lower(s: string): string {
    seq(|s|, i requires 0 <= i < |s| => LowerChar(s[i]))
  }

  /** The per-character test of String.equalsIgnoreCase: equal, equal in upper
      case, or equal once the upper-case forms are lowered again. */
  predicate CharsEqualIgnoreCase(x: char, y: char) {
    x == y || UpperChar(x) == UpperChar(y) || LowerChar(UpperChar(x)) == LowerChar(UpperChar(y))
  }

  /** String.equalsIgnoreCase: same length and pairwise equal ignoring case;
      for ASCII this is equality of the lower-cased strings. */
  function EqualsIgnoreCase(a: string, b: string): (eq: bool)
    ensures eq <==> Lower(a) == Lower(b)
  {
    var eq := |a| == |b| && forall i :: 0 <= i < |a| ==> CharsEqualIgnoreCase(a[i], b[i]);
    assert eq ==> Lower(a) == Lower(b) by {
      if eq {
        assert forall i :: 0 <= i < |a| ==> Lower(a)[i] == Lower(b)[i];
      }
    }
    assert Lower(a) == Lower(b) ==> eq by {
      if Lower(a) == Lower(b) {
        assert forall i :: 0 <= i < |a| ==> Lower(a)[i] == LowerChar(a[i]) && Lower(b)[i] == LowerChar(b[i]);
      }
    }
    eq
  }

  // ---------------------------------------------------------------------------
  // String.trim and blankness

  function TrimStart(s: string): string {
    if s != [] && s[0] <= ' ' then TrimStart(s[1..]) else s
  }

  function TrimEnd(s: string): string {
    if s != [] && s[|s| - 1] <= ' ' then TrimEnd(s[..|s| - 1]) else s
  }

  /** String.trim: drops every leading and trailing character at or below U+0020. */
  function Trim(s: string): string {
    TrimEnd(TrimStart(s))
  }

  lemma {:induction false} TrimStartEmptyIffBlank(s: string)
    ensures TrimStart(s) == [] <==> forall i :: 0 <= i < |s| ==> s[i] <= ' '
    ensures TrimStart(s) != [] ==> TrimStart(s)[0] > ' '
  {
    if s != [] && s[0] <= ' ' {
      TrimStartEmptyIffBlank(s[1..]);
      assert forall i :: 1 <= i < |s| ==> s[i] == s[1..][i - 1];
    }
  }

  lemma {:induction false} TrimEndKeepsVisibleHead(s: string)
    requires s != [] && s[0] > ' '
    ensures TrimEnd(s) != []
    decreases |s|
  {
    if s[|s| - 1] <= ' ' {
      TrimEndKeepsVisibleHead(s[..|s| - 1]);
    }
  }

  /** A string trims to nothing exactly when every character is at or below U+0020. */
  lemma TrimEmptyIffBlank(s: string)
    ensures Trim(s) == [] <==> forall i :: 0 <= i < |s| ==> s[i] <= ' '
  {
    TrimStartEmptyIffBlank(s);
    if TrimStart(s) != [] {
      TrimEndKeepsVisibleHead(TrimStart(s));
    }
  }

  // ---------------------------------------------------------------------------
  // SQL LIKE and substring containment

  /** SQL `text LIKE pattern`: '%' matches any run of characters, '_' exactly one,
      any other character itself. */
  function Like(text: string, pattern: string): bool
    decreases |text| + |pattern|
  {
    if pattern == [] then text == []
    else if pattern[0] == '%' then Like(text, pattern[1..]) || (text != [] && Like(text[1..], pattern))
    else text != [] && (pattern[0] == '_' || pattern[0] == text[0]) && Like(text[1..], pattern[1..])
  }

  predicate NoWildcards(s: string) {
    forall i :: 0 <= i < |s| ==> s[i] != '%' && s[i] != '_'
  }

  /** `sub` occurs in `s` starting at index `i`. */
  predicate OccursAt(sub: string, s: string, i: int) {
    0 <= i && i + |sub| <= |s| && s[i..i + |sub|] == sub
  }

  ghost predicate IsSubstring(sub: string, s: string) {
    exists i :: OccursAt(sub, s, i)
  }

  lemma {:induction false} LikePercentMatchesAll(text: string)
    ensures Like(text, "%")
    decreases |text|
  {
    if text != [] {
      LikePercentMatchesAll(text[1..]);
    }
  }

  /** A literal followed by '%' matches exactly the texts the literal starts. */
  lemma {:induction false} LikePrefix(text: string, lit: string)
    requires NoWildcards(lit)
    ensures Like(text, lit + "%") <==> |lit| <= |text| && text[..|lit|] == lit
    decreases |lit|
  {
    if lit == [] {
      assert lit + "%" == "%";
      LikePercentMatchesAll(text);
    } else {
      var p := lit + "%";
      assert p[0] == lit[0] && p[1..] == lit[1..] + "%";
      assert NoWildcards(lit[1..]) by {
        assert forall i :: 0 <= i < |lit| - 1 ==> lit[1..][i] == lit[i + 1];
      }
      if text != [] {
        LikePrefix(text[1..], lit[1..]);
        if |lit| <= |text| {
          assert text[..|lit|] == [text[0]] + text[1..][..|lit| - 1];
          assert lit == [lit[0]] + lit[1..];
        }
      }
    }
  }

  /** A pattern led by '%' matches when the rest of it matches some suffix. */
  lemma {:induction false} LikeLeadingPercent(text: string, rest: string)
    ensures Like(text, "%" + rest) <==> exists i :: 0 <= i <= |text| && Like(text[i..], rest)
    decreases |text|
  {
    var p := "%" + rest;
    assert p[0] == '%' && p[1..] == rest;
    assert text[0..] == text;
    if text != [] {
      LikeLeadingPercent(text[1..], rest);
      forall i | 0 <= i <= |text| - 1
        ensures text[1..][i..] == text[i + 1..]
      {}
      if !Like(text, p) {
        forall i | 0 <= i <= |text|
          ensures !Like(text[i..], rest)
        {
          if i > 0 {
            assert text[i..] == text[1..][i - 1..];
          }
        }
      }
    }
  }

  /** The catalog search pattern '%' + s + '%' matches exactly the texts that
      contain s, when s holds no wildcard character. */
  lemma LikeContains(text: string, s: string)
    ensures NoWildcards(s) ==> (Like(text, "%" + s + "%") <==> IsSubstring(s, text))
  {
    if NoWildcards(s) {
      assert "%" + s + "%" == "%" + (s + "%");
      LikeLeadingPercent(text, s + "%");
      forall i | 0 <= i <= |text|
        ensures Like(text[i..], s + "%") <==> OccursAt(s, text, i)
      {
        LikePrefix(text[i..], s);
        if i + |s| <= |text| {
          assert text[i..][..|s|] == text[i..i + |s|];
        }
      }
    }
  }
}
