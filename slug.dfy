/**
 The id rule of `addCategory`: lower-case the display name, then replace every
 maximal run of characters outside [a-z0-9] with a single '-'. Leading and
 trailing runs become '-' as well; nothing is trimmed.
 */
module Slug {

  predicate IsAlnum(c: char) {
    'a' <= c <= 'z' || '0' <= c <= '9'
  }

  /** The characters a derived id can contain. */
  predicate IsIdChar(c: char) {
    IsAlnum(c) || c == '-'
  }

  /** No two consecutive separators. */
  predicate NoDoubleDash(s: string) {
    forall i :: 0 <= i < |s| - 1 ==> !(s[i] == '-' && s[i + 1] == '-')
  }

  /** The shape every derived id has. */
  predicate IsSlug(s: string) {
    (forall i :: 0 <= i < |s| ==> IsIdChar(s[i])) && NoDoubleDash(s)
  }

  /** ASCII `toLowerCase`; every other character is left as it is. */
  function LowerChar(c: char): (r: char)
    ensures 'A' <= c <= 'Z' ==> 'a' <= r <= 'z' && r as int == c as int + 32
    ensures !('A' <= c <= 'Z') ==> r == c
  {
    if 'A' <= c <= 'Z' then (c as int + 32) as char else c
  }

  function Lower(s: string): string {
    seq(|s|, i requires 0 <= i < |s| => LowerChar(s[i]))
  }

  /** Drops the leading run of characters outside [a-z0-9]. */
  function SkipRun(s: string): (r: string)
    ensures |r| <= |s|
    ensures r == [] || IsAlnum(r[0])
    ensures r != [] ==> r[|r| - 1] == s[|s| - 1]
    ensures r == [] && s != [] ==> !IsAlnum(s[|s| - 1])
  {
    if s != [] && !IsAlnum(s[0]) then SkipRun(s[1..]) else s
  }

  /** Replaces each maximal run of characters outside [a-z0-9] by one '-'. */
  function Collapse(s: string): (r: string)
    ensures |r| <= |s|
    ensures r == [] <==> s == []
    ensures s != [] && IsAlnum(s[0]) ==> r[0] == s[0]
    ensures s != [] && !IsAlnum(s[0]) ==> r[0] == '-'
    ensures s != [] && IsAlnum(s[|s| - 1]) ==> r[|r| - 1] == s[|s| - 1]
    ensures s != [] && !IsAlnum(s[|s| - 1]) ==> r[|r| - 1] == '-'
    ensures IsSlug(r)
    decreases |s|
  {
    if s == [] then []
    else if IsAlnum(s[0]) then [s[0]] + Collapse(s[1..])
    else "-" + Collapse(SkipRun(s[1..]))
  }

  /** `name.toLowerCase().replace(/[^a-z0-9]+/g, '-')`, ASCII case mapping only. */
  function DeriveId(name: string): (id: string)
    ensures IsSlug(id)
    ensures |id| <= |name|
    ensures id == [] <==> name == []
    ensures name != [] && !IsAlnum(LowerChar(name[0])) ==> id[0] == '-'
    ensures name != [] && !IsAlnum(LowerChar(name[|name| - 1])) ==> id[|id| - 1] == '-'
  {
    Collapse(Lower(name))
  }

  /** The [a-z0-9] characters of a string, in order. */
  function Alnums(s: string): string {
    if s == [] then [] else (if IsAlnum(s[0]) then [s[0]] else []) + Alnums(s[1..])
  }

  lemma {:induction false} AlnumsSkipRun(s: string)
    ensures Alnums(SkipRun(s)) == Alnums(s)
    decreases |s|
  {
    if s != [] && !IsAlnum(s[0]) {
      AlnumsSkipRun(s[1..]);
    }
  }

  /** Collapsing keeps every letter and digit, in order, and adds none. */
  lemma {:induction false} AlnumsCollapse(s: string)
    ensures Alnums(Collapse(s)) == Alnums(s)
    decreases |s|
  {
    if s == [] {
    } else if IsAlnum(s[0]) {
      AlnumsCollapse(s[1..]);
      assert Collapse(s)[1..] == Collapse(s[1..]);
    } else {
      var t := SkipRun(s[1..]);
      AlnumsCollapse(t);
      AlnumsSkipRun(s[1..]);
      assert Collapse(s)[0] == '-' && Collapse(s)[1..] == Collapse(t);
    }
  }

  /** The derived id holds exactly the lower-cased name's letters and digits, in order. */
  lemma DeriveIdKeepsAlnums(name: string)
    ensures Alnums(DeriveId(name)) == Alnums(Lower(name))
  {
    AlnumsCollapse(Lower(name));
  }

  /** Dropping the first character keeps id shape; after a '-' comes a letter or digit, or nothing. */
  lemma SlugTail(s: string)
    requires IsSlug(s) && s != []
    ensures IsSlug(s[1..])
    ensures s[0] == '-' && |s| > 1 ==> IsAlnum(s[1])
  {
    var t := s[1..];
    forall i | 0 <= i < |t| ensures IsIdChar(t[i]) {
      assert t[i] == s[i + 1];
    }
    forall i | 0 <= i < |t| - 1 ensures !(t[i] == '-' && t[i + 1] == '-') {
      assert t[i] == s[i + 1] && t[i + 1] == s[i + 2];
    }
    if |s| > 1 {
      assert IsIdChar(s[1]) && !(s[0] == '-' && s[1] == '-');
    }
  }

  /** A string already in id shape is left alone by collapsing, and only such a string is. */
  lemma {:induction false} CollapseFixed(s: string)
    ensures Collapse(s) == s <==> IsSlug(s)
    decreases |s|
  {
    if IsSlug(s) && s != [] {
      var t := s[1..];
      SlugTail(s);
      CollapseFixed(t);
      if !IsAlnum(s[0]) {
        assert SkipRun(t) == t;
      }
      assert s == [s[0]] + t;
    }
  }

  lemma LowerOfSlug(s: string)
    requires IsSlug(s)
    ensures Lower(s) == s
  {
  }

  /** Deriving an id from a derived id gives it back. */
  lemma DeriveIdIdempotent(name: string)
    ensures DeriveId(DeriveId(name)) == DeriveId(name)
  {
    var id := DeriveId(name);
    LowerOfSlug(id);
    CollapseFixed(id);
  }

  /** A string is its own id exactly when it has the id shape. */
  lemma DeriveIdFixedPoints(s: string)
    ensures DeriveId(s) == s <==> IsSlug(s)
  {
    if IsSlug(s) {
      LowerOfSlug(s);
      CollapseFixed(s);
    }
  }


  /** The name `Travel` gets the id `travel`. */
  lemma DeriveIdTravel()
    ensures DeriveId("Travel") == "travel"
  {
    LowerTravel();
    DeriveIdOfWord("Travel", "travel");
  }

  lemma AppendAssoc<T>(x: seq<T>, y: seq<T>, z: seq<T>)
    ensures x + y + z == x + (y + z)
  {
  }

  lemma TailOfAppend<T>(x: seq<T>, y: seq<T>)
    requires x != []
    ensures (x + y)[0] == x[0] && (x + y)[1..] == x[1..] + y
  {
  }

  /** A non-empty string of letters and digits only. */
  predicate IsWord(w: string) {
    w != [] && forall i :: 0 <= i < |w| ==> IsAlnum(w[i])
  }

  /** A non-empty run of characters outside [a-z0-9]. */
  predicate IsRun(r: string) {
    r != [] && forall i :: 0 <= i < |r| ==> !IsAlnum(r[i])
  }

  /** Skipping a run stops inside `a` when `a` holds a letter or digit. */
  lemma {:induction false} SkipRunAppend(a: string, b: string)
    requires exists i :: 0 <= i < |a| && IsAlnum(a[i])
    ensures SkipRun(a + b) == SkipRun(a) + b
    decreases |a|
  {
    TailOfAppend(a, b);
    if !IsAlnum(a[0]) {
      var i :| 0 <= i < |a| && IsAlnum(a[i]);
      assert i > 0 && a[1..][i - 1] == a[i];
      SkipRunAppend(a[1..], b);
    }
  }

  /** A run followed by a letter or digit, or by nothing, is skipped whole. */
  lemma {:induction false} SkipRunOfRun(r: string, b: string)
    requires forall i :: 0 <= i < |r| ==> !IsAlnum(r[i])
    requires b == [] || IsAlnum(b[0])
    ensures SkipRun(r + b) == b
    decreases |r|
  {
    if r == [] {
      assert r + b == b;
    } else {
      TailOfAppend(r, b);
      SkipRunOfRun(r[1..], b);
    }
  }

  /** Collapsing works piecewise across a boundary that follows a letter or digit. */
  lemma {:induction false} CollapseSplit(a: string, b: string)
    requires a != [] && IsAlnum(a[|a| - 1])
    ensures Collapse(a + b) == Collapse(a) + Collapse(b)
    decreases |a|
  {
    TailOfAppend(a, b);
    if IsAlnum(a[0]) {
      if |a| == 1 {
        assert a[1..] + b == b;
        assert Collapse(a) == [a[0]];
      } else {
        CollapseSplit(a[1..], b);
        AppendAssoc([a[0]], Collapse(a[1..]), Collapse(b));
      }
    } else {
      var t := SkipRun(a[1..]);
      assert a[1..][|a| - 2] == a[|a| - 1];
      SkipRunAppend(a[1..], b);
      CollapseSplit(t, b);
      AppendAssoc("-", Collapse(t), Collapse(b));
    }
  }

  /** A leading run followed by a letter or digit, or by nothing, becomes one '-'. */
  lemma CollapseLeadingRun(r: string, b: string)
    requires IsRun(r)
    requires b == [] || IsAlnum(b[0])
    ensures Collapse(r + b) == "-" + Collapse(b)
  {
    TailOfAppend(r, b);
    SkipRunOfRun(r[1..], b);
  }

  /**
   A run after a letter or digit becomes exactly one '-', whether a letter or
   digit follows it or the text ends there.
   */
  lemma CollapseRun(a: string, r: string, b: string)
    requires a != [] && IsAlnum(a[|a| - 1])
    requires IsRun(r)
    requires b == [] || IsAlnum(b[0])
    ensures Collapse(a + r + b) == Collapse(a) + "-" + Collapse(b)
  {
    AppendAssoc(a, r, b);
    CollapseSplit(a, r + b);
    CollapseLeadingRun(r, b);
    AppendAssoc(Collapse(a), "-", Collapse(b));
  }

  lemma CollapseWord(w: string)
    requires IsWord(w)
    ensures Collapse(w) == w
  {
    CollapseFixed(w);
  }

  /** A word followed by a run ending the text keeps the word and one trailing '-'. */
  lemma CollapseWordRun(w: string, r: string)
    requires IsWord(w) && IsRun(r)
    ensures Collapse(w + r) == w + "-"
  {
    assert w + r + [] == w + r;
    CollapseRun(w, r, []);
    CollapseWord(w);
  }

  /** `s` is two words, each followed by a run: each run becomes one '-'. */
  lemma CollapseTwoWords(s: string, t: string, h: string, r1: string, w: string, r2: string)
    requires IsWord(h) && IsRun(r1) && IsWord(w) && IsRun(r2)
    requires s == h + r1 + (w + r2) && t == h + "-" + (w + "-")
    ensures Collapse(s) == t
  {
    CollapseWordRun(w, r2);
    CollapseRun(h, r1, w + r2);
    CollapseWord(h);
  }

  lemma LowerAppend(a: string, b: string)
    ensures Lower(a + b) == Lower(a) + Lower(b)
  {
  }

  /**
   In a name, a run of characters that are not letters or digits once lower-cased,
   placed after a letter or digit, becomes one '-' of the id; at the end of the
   name too, so a trailing run is kept as '-'.
   */
  lemma DeriveIdRun(a: string, r: string, b: string)
    requires a != [] && IsAlnum(LowerChar(a[|a| - 1]))
    requires r != [] && forall i :: 0 <= i < |r| ==> !IsAlnum(LowerChar(r[i]))
    requires b == [] || IsAlnum(LowerChar(b[0]))
    ensures DeriveId(a + r + b) == DeriveId(a) + "-" + DeriveId(b)
  {
    LowerAppend(a + r, b);
    LowerAppend(a, r);
    CollapseRun(Lower(a), Lower(r), Lower(b));
  }

  /** A name whose lower-cased form is one word gets that word as its id. */
  lemma DeriveIdOfWord(name: string, id: string)
    requires id == Lower(name) && IsWord(id)
    ensures DeriveId(name) == id
  {
    CollapseWord(id);
  }

  lemma LowerTravel()
    ensures Lower("Travel") == "travel"
  {
    forall i | 0 <= i < 6
      ensures Lower("Travel")[i] == "travel"[i]
    {
    }
  }

  lemma LowerHealth()
    ensures Lower("Health & Wellness!") == "health & wellness!"
  {
    forall i | 0 <= i < 18
      ensures Lower("Health & Wellness!")[i] == "health & wellness!"[i]
    {
    }
  }

  lemma CollapseHealth()
    ensures Collapse("health & wellness!") == "health-wellness-"
  {
    CollapseTwoWords("health & wellness!", "health-wellness-", "health", " & ", "wellness", "!");
  }

  /** The name `Health & Wellness!`: the inner run becomes one '-', and the trailing one is kept. */
  lemma DeriveIdHealth()
    ensures DeriveId("Health & Wellness!") == "health-wellness-"
  {
    LowerHealth();
    CollapseHealth();
  }
}
