/**
 * SQLite's LIKE operator as the catalogue query uses it: no ESCAPE clause,
 * case_sensitive_like off.  '%' matches any run of characters (possibly
 * empty), '_' matches exactly one character, every other pattern character
 * matches one text character that is equal to it up to ASCII case.
 */
module SqlLike {
  import opened Text
  import opened Optional

  function Like(pattern: string, text: string): bool
    decreases |pattern|, |text|
  {
    if pattern == [] then text == []
    else if pattern[0] == '%' then
      Like(pattern[1..], text) || (text != [] && Like(pattern, text[1..]))
    else
      text != [] &&
      (pattern[0] == '_' || LowerChar(pattern[0]) == LowerChar(text[0])) &&
      Like(pattern[1..], text[1..])
  }

  /** `column LIKE pattern` on a nullable column: NULL never matches. */
  predicate LikeNullable(pattern: string, column: Option<string>) {
    column.Some? && Like(pattern, column.value)
  }

  /** The text contains no LIKE wildcard, so it stands for itself. */
  predicate NoWildcards(s: string) {
    forall i :: 0 <= i < |s| ==> s[i] != '%' && s[i] != '_'
  }

  /** Case-insensitive substring test, the meaning of `%s%` for a plain s. */
  predicate ContainsIgnoringCase(text: string, s: string) {
    Contains(Lower(text), Lower(s))
  }

  /** A lone '%' matches every text. */
  lemma {:induction false} PercentMatchesAll(text: string)
    ensures Like("%", text)
  {
    if text != [] {
      PercentMatchesAll(text[1..]);
    }
  }

  /** `%%`, the pattern an empty search builds, matches every non-NULL value. */
  lemma EmptySearchMatchesAll(text: string)
    ensures Like("%%", text)
  {
    assert "%%"[1..] == "%";
    PercentMatchesAll(text);
  }

  /** A plain text followed by '%' matches exactly the texts that start with it, up to case. */
  lemma {:induction false} PlainPrefix(s: string, text: string)
    requires NoWildcards(s)
    ensures Like(s + "%", text) <==> |s| <= |text| && Lower(s) == Lower(text[..|s|])
  {
    if s == [] {
      assert s + "%" == "%";
      PercentMatchesAll(text);
    } else {
      var p := s + "%";
      assert p[0] == s[0] && p[1..] == s[1..] + "%";
      assert NoWildcards(s[1..]);
      if text != [] {
        PlainPrefix(s[1..], text[1..]);
        assert s[0] != '_' && s[0] != '%';
        if |s| <= |text| {
          var a, b := Lower(s), Lower(text[..|s|]);
          assert text[1..][..|s| - 1] == text[..|s|][1..];
          assert a[0] == LowerChar(s[0]) && a[1..] == Lower(s[1..]);
          assert b[0] == LowerChar(text[0]) && b[1..] == Lower(text[1..][..|s| - 1]);
          assert a == b <==> a[0] == b[0] && a[1..] == b[1..];
        }
      }
    }
  }

  /** A leading '%' lets the rest of the pattern match at any starting position. */
  lemma {:induction false} LeadingPercent(q: string, text: string)
    ensures Like("%" + q, text) <==> exists i :: 0 <= i <= |text| && Like(q, text[i..])
  {
    var p := "%" + q;
    assert p[0] == '%' && p[1..] == q;
    assert text[0..] == text;
    if text != [] {
      LeadingPercent(q, text[1..]);
      if Like(p, text[1..]) {
        var i :| 0 <= i <= |text[1..]| && Like(q, text[1..][i..]);
        assert text[1..][i..] == text[i + 1..];
      }
      if i :| 0 <= i <= |text| && Like(q, text[i..]) {
        if i > 0 {
          assert text[1..][i - 1..] == text[i..];
        }
      }
    }
  }

  /**
   * The search pattern `%s%` for a text s without wildcards is a
   * case-insensitive substring test.
   */
  lemma PlainSearchIsSubstring(s: string, text: string)
    requires NoWildcards(s)
    ensures Like("%" + s + "%", text) <==> ContainsIgnoringCase(text, s)
  {
    assert "%" + s + "%" == "%" + (s + "%");
    LeadingPercent(s + "%", text);
    var lt, ls := Lower(text), Lower(s);
    forall i | 0 <= i <= |text|
      ensures Like(s + "%", text[i..]) <==> (i <= |text| - |s| && OccursAt(lt, ls, i))
    {
      PlainPrefix(s, text[i..]);
      if |s| <= |text| - i {
        assert Lower(text[i..][..|s|]) == lt[i..i + |s|];
      }
    }
    if ContainsIgnoringCase(text, s) {
      var i :| 0 <= i <= |lt| - |ls| && OccursAt(lt, ls, i);
      assert Like(s + "%", text[i..]);
    }
  }

  /** A '_' typed into the search box is a wildcard: `%_%` matches every non-empty text. */
  lemma UnderscoreSearchMatchesNonEmpty(text: string)
    ensures Like("%_%", text) <==> text != []
  {
    assert "%_%" == "%" + "_%";
    assert "_%"[1..] == "%";
    LeadingPercent("_%", text);
    if text != [] {
      PercentMatchesAll(text[1..]);
      assert text[0..] == text;
      assert Like("_%", text[0..]);
    }
  }
}
