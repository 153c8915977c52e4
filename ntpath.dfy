/**
 * The three Windows path helpers the core calls: os.path.splitext,
 * os.path.basename and os.path.join (Python's ntpath), over the path shapes
 * the program produces.  Both '\' and '/' are separators.
 */
module NtPath {
  import opened Text

  predicate IsSep(c: char) {
    c == '\\' || c == '/'
  }

  /** Index of the last separator in p, or -1 when p has none. */
  function LastSep(p: string): (r: int)
    ensures -1 <= r < |p|
    ensures r >= 0 ==> IsSep(p[r])
    ensures forall k :: r < k < |p| ==> !IsSep(p[k])
  {
    if p == [] then -1
    else if IsSep(p[|p| - 1]) then |p| - 1
    else LastSep(p[..|p| - 1])
  }

  /** Some character of p[lo..hi] is not a dot. */
  predicate HasNonDot(p: string, lo: int, hi: int)
    requires 0 <= lo <= hi <= |p|
  {
    exists k :: lo <= k < hi && p[k] != '.'
  }

  /**
   * os.path.splitext: the extension starts at the last dot of the last path
   * component, provided that dot is not part of the component's leading dots
   * (".pdf" has no extension, "a.b.pdf" has ".pdf").
   */
  function SplitExt(p: string): (string, string) {
    var sep := LastSep(p);
    var dot := LastIndex(p, '.');
    if dot > sep && HasNonDot(p, sep + 1, dot) then (p[..dot], p[dot..]) else (p, "")
  }

  function Ext(p: string): string {
    SplitExt(p).1
  }

  /** A name with no dot after its first character has no extension: a leading dot does not start one. */
  lemma NoInnerDotNoExt(p: string)
    requires forall k :: 0 < k < |p| ==> p[k] != '.'
    ensures Ext(p) == []
  {
    var sep := LastSep(p);
    var dot := LastIndex(p, '.');
    assert dot <= 0;
    if dot > sep {
      assert !HasNonDot(p, sep + 1, dot);
    }
  }

  /** splitext splits p into two parts that put back together give p; an extension is a dot and then no dot or separator. */
  lemma SplitExtParts(p: string)
    ensures SplitExt(p).0 + SplitExt(p).1 == p
    ensures var e := Ext(p);
      e == [] || (e[0] == '.' && forall k :: 1 <= k < |e| ==> e[k] != '.' && !IsSep(e[k]))
  {
    var sep := LastSep(p);
    var dot := LastIndex(p, '.');
    if dot > sep && HasNonDot(p, sep + 1, dot) {
      assert p[..dot] + p[dot..] == p;
    }
  }

  /** Lower-casing never creates or removes a '.', '\' or '/'. */
  lemma LowerKeepsPunctuation(x: char)
    ensures LowerChar(x) == '.' <==> x == '.'
    ensures IsSep(LowerChar(x)) <==> IsSep(x)
  {
  }

  /** splitext commutes with lower-casing, so the extension of the lowered path is the lowered extension. */
  lemma ExtOfLower(p: string)
    ensures Ext(Lower(p)) == Lower(Ext(p))
  {
    var q := Lower(p);
    forall k | 0 <= k < |p|
      ensures (q[k] == '.' <==> p[k] == '.') && (IsSep(q[k]) <==> IsSep(p[k]))
    {
      LowerKeepsPunctuation(p[k]);
    }
    var sp, sq := LastSep(p), LastSep(q);
    var dp, dq := LastIndex(p, '.'), LastIndex(q, '.');
    assert sp == sq;
    assert dp == dq;
    if dp > sp {
      assert HasNonDot(p, sp + 1, dp) <==> HasNonDot(q, sp + 1, dp) by {
        if HasNonDot(p, sp + 1, dp) {
          var k :| sp + 1 <= k < dp && p[k] != '.';
          assert q[k] != '.';
        }
        if HasNonDot(q, sp + 1, dp) {
          var k :| sp + 1 <= k < dp && q[k] != '.';
          assert p[k] != '.';
        }
      }
      assert q[dp..] == Lower(p[dp..]);
    }
  }

  /** os.path.basename: what follows the last separator (after a drive "X:" when there is none). */
  function Basename(p: string): string {
    var sep := LastSep(p);
    if sep >= 0 then p[sep + 1..]
    else if |p| >= 2 && p[1] == ':' then p[2..]
    else p
  }

  /**
   * os.path.join(root, name) for a file name with no separator or drive in
   * it: a '\' is put between the two unless root is empty or already ends in
   * a separator or in the drive colon.
   */
  function Join(root: string, name: string): string {
    if root == [] || IsSep(root[|root| - 1]) || root[|root| - 1] == ':' then root + name
    else root + "\\" + name
  }
}
