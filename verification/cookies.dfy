/**
 Reading a named value out of the browser's cookie text, as the component's `getCookie`
 does: prefix the text with "; ", split it on "; <name>=", accept only when the split gives
 exactly two parts, and take the second part up to its first ';'.

 The cookie text is a parameter here; the model does not read any browser state.
 */
module Cookies {
  import opened JsValues

  /** `pat` occurs in `s` starting at position `k`. */
  predicate OccursAt(s: string, pat: string, k: int) {
    0 <= k && k + |pat| <= |s| && s[k..k + |pat|] == pat
  }

  /** The leftmost position at or after `from` where `pat` occurs, as `indexOf` finds it. */
  function IndexOf(s: string, pat: string, from: nat): (r: Option<nat>)
    ensures r.Some? ==> from <= r.value && OccursAt(s, pat, r.value)
    ensures r.Some? ==> forall k :: from <= k < r.value ==> !OccursAt(s, pat, k)
    ensures r.None? ==> forall k :: from <= k ==> !OccursAt(s, pat, k)
    decreases |s| - from
  {
    if from + |pat| > |s| then None
    else if s[from..from + |pat|] == pat then Some(from)
    else IndexOf(s, pat, from + 1)
  }

  /** `String.prototype.split` with a non-empty separator string: cut at each occurrence,
      scanning left to right and resuming after the occurrence just cut at. */
  function Split(s: string, sep: string): (parts: seq<string>)
    requires |sep| > 0
    ensures |parts| >= 1
    decreases |s|
  {
    var i := IndexOf(s, sep, 0);
    if i.None? then [s]
    else [s[..i.value]] + Split(s[i.value + |sep|..], sep)
  }

  /** `Array.prototype.join`: the parts with `sep` between neighbours. */
  function Join(parts: seq<string>, sep: string): string
    requires |parts| >= 1
  {
    if |parts| == 1 then parts[0] else parts[0] + sep + Join(parts[1..], sep)
  }

  /** Unfolding `Split` once at the leftmost occurrence. */
  lemma SplitAt(s: string, sep: string, k: nat)
    requires |sep| > 0
    requires IndexOf(s, sep, 0) == Some(k)
    ensures Split(s, sep) == [s[..k]] + Split(s[k + |sep|..], sep)
  {
  }

  /** Joining the parts of a split with the separator gives back the text. */
  lemma {:induction false} SplitJoin(s: string, sep: string)
    requires |sep| > 0
    ensures Join(Split(s, sep), sep) == s
    decreases |s|
  {
    match IndexOf(s, sep, 0)
    case None =>
    case Some(k) =>
      var rest := s[k + |sep|..];
      var tail := Split(rest, sep);
      SplitAt(s, sep, k);
      SplitJoin(rest, sep);
      var parts := [s[..k]] + tail;
      assert parts[1..] == tail;
      assert Join(parts, sep) == s[..k] + sep + Join(tail, sep);
      assert s[k..k + |sep|] == sep;
      assert s == s[..k] + s[k..k + |sep|] + rest;
  }

  /** No part of a split contains the separator. */
  lemma {:induction false} SplitPartsFree(s: string, sep: string)
    requires |sep| > 0
    ensures forall p, k :: p in Split(s, sep) ==> !OccursAt(p, sep, k)
    decreases |s|
  {
    match IndexOf(s, sep, 0)
    case None =>
    case Some(k) =>
      var rest := s[k + |sep|..];
      SplitAt(s, sep, k);
      SplitPartsFree(rest, sep);
      forall k' | OccursAt(s[..k], sep, k') ensures false {
        assert s[..k][k'..k' + |sep|] == s[k'..k' + |sep|];
        assert OccursAt(s, sep, k');
      }
  }

  /** `getCookie(name)` over the cookie text `cookie`. A value comes back exactly when
      "; name=" has a lone occurrence in "; " + cookie, and it never holds a ';'. */
  function GetCookie(cookie: string, name: string): (r: Option<string>)
    ensures r.Some? <==> exists k :: LoneOccurrence("; " + cookie, "; " + name + "=", k)
    ensures r.Some? ==> ';' !in r.value
  {
    var s := "; " + cookie;
    var sep := "; " + name + "=";
    var parts := Split(s, sep);
    LoneSplitsInTwo(s, sep);
    if |parts| == 2 then
      SplitInTwoAtLone(s, sep);
      FirstSegment(parts[1]);
      Some(Split(parts[1], ";")[0])
    else None
  }

  /** Shifting a text by `d` characters shifts every occurrence in it by `d`. */
  lemma OccursInSuffix(s: string, pat: string, d: nat, k: nat)
    requires d <= |s|
    ensures OccursAt(s[d..], pat, k) <==> OccursAt(s, pat, d + k)
  {
    if k + |pat| <= |s| - d {
      assert s[d..][k..k + |pat|] == s[d + k..d + k + |pat|];
    }
  }

  /** The first segment of a split on ";" is the text up to, and not including, the first
      ';': it holds no ';' and is followed by ';' or by the end of the text. */
  lemma FirstSegment(t: string)
    ensures var v := Split(t, ";")[0];
      && v <= t
      && ';' !in v
      && (|v| == |t| || t[|v|] == ';')
  {
    var v := Split(t, ";")[0];
    match IndexOf(t, ";", 0)
    case None =>
      forall c | 0 <= c < |t| ensures t[c] != ';' {
        assert !OccursAt(t, ";", c);
        assert t[c..c + 1] == [t[c]];
      }
    case Some(k) =>
      assert v == t[..k];
      assert t[k..k + 1] == ";";
      forall c | 0 <= c < k ensures t[c] != ';' {
        assert !OccursAt(t, ";", c);
        assert t[c..c + 1] == [t[c]];
      }
  }

  /** `pat` occurs at `k`, nowhere before `k`, and nowhere from the end of that occurrence on.
      An occurrence that overlaps the one at `k` is allowed: the split resumes after the
      occurrence it cut at, so it never sees one that starts inside it (`GetCookieOverlap`).
      "Occurs exactly once" would therefore be too strong a condition for a value. */
  ghost predicate LoneOccurrence(s: string, pat: string, k: int) {
    && OccursAt(s, pat, k)
    && (forall k' :: k' < k ==> !OccursAt(s, pat, k'))
    && (forall k' :: k + |pat| <= k' ==> !OccursAt(s, pat, k'))
  }

  /** A lone occurrence is the leftmost one. */
  lemma LoneIsLeftmost(s: string, sep: string, k: int)
    requires LoneOccurrence(s, sep, k)
    ensures IndexOf(s, sep, 0) == Some(k)
  {
    var i := IndexOf(s, sep, 0);
    assert i.Some?;
    assert !(i.value < k) && !(k < i.value);
  }

  /** Around a lone occurrence the split gives two parts, the second being the text after it. */
  lemma SplitAroundLone(s: string, sep: string, k: int)
    requires |sep| > 0
    requires LoneOccurrence(s, sep, k)
    ensures |Split(s, sep)| == 2 && Split(s, sep)[1] == s[k + |sep|..]
  {
    LoneIsLeftmost(s, sep, k);
    var t := s[k + |sep|..];
    forall k' | OccursAt(t, sep, k') ensures false {
      OccursInSuffix(s, sep, k + |sep|, k');
    }
    assert IndexOf(t, sep, 0).None?;
    assert Split(t, sep) == [t];
  }

  /** A lone occurrence splits the text in two. */
  lemma LoneSplitsInTwo(s: string, sep: string)
    requires |sep| > 0
    ensures (exists k :: LoneOccurrence(s, sep, k)) ==> |Split(s, sep)| == 2
  {
    if exists k :: LoneOccurrence(s, sep, k) {
      var k :| LoneOccurrence(s, sep, k);
      SplitAroundLone(s, sep, k);
    }
  }

  /** A split into two parts cuts at a lone occurrence. */
  lemma SplitInTwoAtLone(s: string, sep: string)
    requires |sep| > 0
    requires |Split(s, sep)| == 2
    ensures exists k :: LoneOccurrence(s, sep, k)
  {
    var k := IndexOf(s, sep, 0).value;
    var t := s[k + |sep|..];
    assert Split(s, sep) == [s[..k]] + Split(t, sep);
    assert IndexOf(t, sep, 0).None?;
    forall k' | k + |sep| <= k' ensures !OccursAt(s, sep, k') {
      OccursInSuffix(s, sep, k + |sep|, k' - (k + |sep|));
    }
    assert LoneOccurrence(s, sep, k);
  }

  /** `getCookie` yields a value exactly when "; name=" has a lone occurrence in
      "; " + cookie. The value is then the text after that occurrence up to, and not
      including, the next ';'. */
  lemma GetCookieSpec(cookie: string, name: string)
    ensures var s := "; " + cookie;
      var sep := "; " + name + "=";
      && (GetCookie(cookie, name).Some? <==> exists k :: LoneOccurrence(s, sep, k))
      && (forall k :: LoneOccurrence(s, sep, k) ==>
            var t := s[k + |sep|..];
            var v := GetCookie(cookie, name).value;
            && v <= t
            && ';' !in v
            && (|v| == |t| || t[|v|] == ';'))
  {
    var s := "; " + cookie;
    var sep := "; " + name + "=";
    if |Split(s, sep)| == 2 {
      SplitInTwoAtLone(s, sep);
    }
    if exists k :: LoneOccurrence(s, sep, k) {
      var k :| LoneOccurrence(s, sep, k);
      SplitAroundLone(s, sep, k);
      FirstSegment(s[k + |sep|..]);
      forall k' | LoneOccurrence(s, sep, k') ensures k' == k {
        LoneIsLeftmost(s, sep, k');
        LoneIsLeftmost(s, sep, k);
      }
    }
  }

  /** When "; name=" occurs at exactly one position, the lookup succeeds. */
  lemma GetCookieFoundOnce(cookie: string, name: string, k: int)
    requires OccursAt("; " + cookie, "; " + name + "=", k)
    requires forall k' :: k' != k ==> !OccursAt("; " + cookie, "; " + name + "=", k')
    ensures GetCookie(cookie, name).Some?
  {
    GetCookieSpec(cookie, name);
    assert LoneOccurrence("; " + cookie, "; " + name + "=", k);
  }

  /** When "; name=" does not occur, the lookup yields null. */
  lemma GetCookieAbsent(cookie: string, name: string)
    requires forall k :: !OccursAt("; " + cookie, "; " + name + "=", k)
    ensures GetCookie(cookie, name) == None
  {
    GetCookieSpec(cookie, name);
  }

  /** When "; name=" occurs twice without overlap (the cookie is set twice, say under two
      paths), the lookup yields null rather than either value. */
  lemma GetCookieDuplicate(cookie: string, name: string, k1: int, k2: int)
    requires OccursAt("; " + cookie, "; " + name + "=", k1)
    requires OccursAt("; " + cookie, "; " + name + "=", k2)
    requires k1 + |"; " + name + "="| <= k2
    ensures GetCookie(cookie, name) == None
  {
    GetCookieSpec(cookie, name);
  }

  /** Occurrences that overlap do not hide a value: in "; a=; a=; a=" the separator
      "; a=; a=" (the cookie "a=; a" looked up) starts at 0 and again at 4, yet the split
      cuts only at 0 and the lookup yields the empty value. */
  lemma GetCookieOverlap()
    ensures OccursAt("; a=; a=; a=", "; a=; a=", 0) && OccursAt("; a=; a=; a=", "; a=; a=", 4)
    ensures GetCookie("a=; a=; a=", "a=; a") == Some("")
  {
    var s := "; a=; a=; a=";
    var sep := "; a=; a=";
    assert "; " + "a=; a=; a=" == s;
    assert "; " + "a=; a" + "=" == sep;
    assert OccursAt(s, sep, 0);
    assert LoneOccurrence(s, sep, 0);
    GetCookieSpec("a=; a=; a=", "a=; a");
    var v := GetCookie("a=; a=; a=", "a=; a").value;
    assert s[8..][0] == ';';
  }
}
