/**
  `/api/spaces`: creating a space from a display name. The name is turned
  into a URL slug (lower-cased, every run of characters outside `[a-z0-9]`
  replaced by one dash, dashes stripped from both ends, cut to 64
  characters, `space` when nothing is left); a taken slug gets the first
  free suffix `-2`, `-3`, …; the space is then registered under it.
 */
module SpacesApi {
  import opened Wrappers
  import opened Types
  import Text

  const NameRequired := "Name is required"
  const InvalidName := "Invalid name \U{2014} use letters, numbers, and dashes"
  const MaxSlugLength: nat := 64
  const FallbackSlug := "space"

  // ---------------------------------------------------------------------
  // The slug pipeline
  // ---------------------------------------------------------------------

  /**
    `toLowerCase` of one character as far as a slug can tell: ASCII capitals
    become small letters, and the two non-ASCII characters whose lower case
    contains ASCII letters (U+0130 and the Kelvin sign) map to them. Every
    other character lies outside `[a-z0-9]` before and after lower-casing,
    so it is kept as it is.
   */
  function LowerChar(c: char): (r: string)
    ensures |r| >= 1
  {
    if 'A' <= c <= 'Z' then [(c as int + 32) as char]
    else if c == '\U{0130}' then "i\U{0307}"
    else if c == '\U{212A}' then "k"
    else [c]
  }

  function Lower(s: string): (r: string)
    ensures |r| >= |s|
  {
    if s == [] then [] else LowerChar(s[0]) + Lower(s[1..])
  }

  /** The characters a slug may hold. */
  predicate SlugChar(c: char) { Text.IsLowerAlnum(c) || c == '-' }

  predicate SlugChars(s: string) { forall i :: 0 <= i < |s| ==> SlugChar(s[i]) }

  predicate NoDoubleDash(s: string) {
    forall i :: 0 <= i < |s| - 1 ==> !(s[i] == '-' && s[i + 1] == '-')
  }

  /** The `[a-z0-9]` characters of a string, in order. */
  function AlnumOf(s: string): string {
    if s == [] then []
    else if Text.IsLowerAlnum(s[0]) then [s[0]] + AlnumOf(s[1..])
    else AlnumOf(s[1..])
  }

  /** Skips the run of characters outside `[a-z0-9]` at the front. */
  function DropRun(s: string): (r: string)
    ensures |r| <= |s|
    ensures r == [] || Text.IsLowerAlnum(r[0])
    ensures AlnumOf(r) == AlnumOf(s)
  {
    if s != [] && !Text.IsLowerAlnum(s[0]) then DropRun(s[1..]) else s
  }

  /**
    `replace(/[^a-z0-9]+/g, '-')`: each maximal run of characters outside
    `[a-z0-9]` becomes a single dash.
   */
  function Collapse(s: string): (r: string)
    ensures s == [] <==> r == []
    ensures s != [] ==> r[0] == (if Text.IsLowerAlnum(s[0]) then s[0] else '-')
    decreases |s|
  {
    if s == [] then []
    else if Text.IsLowerAlnum(s[0]) then [s[0]] + Collapse(s[1..])
    else "-" + Collapse(DropRun(s[1..]))
  }

  /** The collapsed string holds only slug characters and never two dashes in a row. */
  lemma {:induction false} CollapseShape(s: string)
    ensures SlugChars(Collapse(s)) && NoDoubleDash(Collapse(s))
    decreases |s|
  {
    if s != [] {
      var rest := if Text.IsLowerAlnum(s[0]) then s[1..] else DropRun(s[1..]);
      CollapseShape(rest);
      var t := Collapse(rest);
      var r := Collapse(s);
      assert r == [r[0]] + t;
      assert forall i :: 1 <= i < |r| ==> r[i] == t[i - 1];
      assert !Text.IsLowerAlnum(s[0]) && t != [] ==> t[0] != '-';
    }
  }

  /** Collapsing keeps exactly the `[a-z0-9]` characters of its input, in order. */
  lemma {:induction false} CollapseKeepsAlnum(s: string)
    ensures AlnumOf(Collapse(s)) == AlnumOf(s)
    decreases |s|
  {
    if s != [] {
      var rest := if Text.IsLowerAlnum(s[0]) then s[1..] else DropRun(s[1..]);
      CollapseKeepsAlnum(rest);
      var r := Collapse(s);
      assert r[1..] == Collapse(rest);
    }
  }

  function StripLeadingDashes(s: string): (r: string)
    ensures |r| <= |s|
    ensures r == [] || r[0] != '-'
  {
    if s != [] && s[0] == '-' then StripLeadingDashes(s[1..]) else s
  }

  function StripTrailingDashes(s: string): (r: string)
    ensures |r| <= |s|
    ensures r == [] || r[|r| - 1] != '-'
  {
    if s != [] && s[|s| - 1] == '-' then StripTrailingDashes(s[..|s| - 1]) else s
  }

  /** Stripping leading dashes keeps a suffix of the input. */
  lemma {:induction false} StripLeadingIsSuffix(s: string)
    ensures StripLeadingDashes(s) == s[|s| - |StripLeadingDashes(s)|..]
  {
    if s != [] && s[0] == '-' {
      StripLeadingIsSuffix(s[1..]);
      var k := |StripLeadingDashes(s)|;
      assert s[1..][|s| - 1 - k..] == s[|s| - k..];
    }
  }

  /** Stripping trailing dashes keeps a prefix of the input. */
  lemma {:induction false} StripTrailingIsPrefix(s: string)
    ensures StripTrailingDashes(s) == s[..|StripTrailingDashes(s)|]
  {
    if s != [] && s[|s| - 1] == '-' {
      StripTrailingIsPrefix(s[..|s| - 1]);
      var k := |StripTrailingDashes(s)|;
      assert s[..|s| - 1][..k] == s[..k];
    }
  }

  /** `replace(/^-+|-+$/g, '')`: no dash at either end. */
  function StripDashes(s: string): (r: string)
    ensures r == [] || (r[0] != '-' && r[|r| - 1] != '-')
    ensures |r| <= |s|
  {
    var l := StripLeadingDashes(s);
    StripTrailingIsPrefix(l);
    StripTrailingDashes(l)
  }

  /** The stripped string is a piece of its input. */
  lemma StripDashesIsSlice(s: string)
    ensures var a := |s| - |StripLeadingDashes(s)|;
      a + |StripDashes(s)| <= |s| && StripDashes(s) == s[a..a + |StripDashes(s)|]
  {
    var l := StripLeadingDashes(s);
    var r := StripTrailingDashes(l);
    var a := |s| - |l|;
    StripLeadingIsSuffix(s);
    StripTrailingIsPrefix(l);
    assert r == l[..|r|];
    assert l == s[a..];
  }

  /** `slice(0, n)`. */
  function Take(s: string, n: nat): string {
    if |s| <= n then s else s[..n]
  }

  /** `slice(0, n)` is the whole string when it is short enough, and otherwise its first `n` characters. */
  lemma TakeIsPrefix(s: string, n: nat)
    ensures |Take(s, n)| == if |s| <= n then |s| else n
    ensures Take(s, n) == s[..|Take(s, n)|]
  {
  }

  /** Any piece of a string that holds only slug characters and no double dash has the same two properties. */
  lemma SliceKeepsShape(s: string, a: int, b: int)
    requires 0 <= a <= b <= |s| && SlugChars(s) && NoDoubleDash(s)
    ensures SlugChars(s[a..b]) && NoDoubleDash(s[a..b])
  {
    assert forall i :: 0 <= i < b - a ==> s[a..b][i] == s[a + i];
  }

  /** The stripped, collapsed lower case of a name: the slug before the cut. */
  function Stripped(name: string): string {
    StripDashes(Collapse(Lower(name)))
  }

  lemma StrippedShape(name: string)
    ensures var s := Stripped(name);
      && SlugChars(s) && NoDoubleDash(s)
      && (s == [] || (s[0] != '-' && s[|s| - 1] != '-'))
  {
    var c := Collapse(Lower(name));
    CollapseShape(Lower(name));
    StripDashesIsSlice(c);
    var a := |c| - |StripLeadingDashes(c)|;
    SliceKeepsShape(c, a, a + |StripDashes(c)|);
  }

  /**
    `generateSlug` as written: strip the dashes, THEN cut to 64 characters.
    Its result is a non-empty run of slug characters of at most 64, with no
    double dash and no leading dash, but it can end in a dash (see
    `SlugTrailingDash`).
   */
  function GenerateSlug(name: string): (r: string)
    ensures 1 <= |r| <= MaxSlugLength
    ensures SlugChars(r) && NoDoubleDash(r)
    ensures r[0] != '-'
  {
    var s := Stripped(name);
    StrippedShape(name);
    var t := Take(s, MaxSlugLength);
    SliceKeepsShape(s, 0, |t|);
    if t == [] then FallbackSlug else t
  }

  /**
    `generateSlug` with the end dashes stripped again after the cut, so that
    a cut in front of a dash cannot leave one at the end.
   */
  function GenerateSlugFixed(name: string): (r: string)
    ensures 1 <= |r| <= MaxSlugLength
    ensures SlugChars(r) && NoDoubleDash(r)
    ensures r[0] != '-' && r[|r| - 1] != '-'
  {
    var s := Stripped(name);
    StrippedShape(name);
    var t := Take(s, MaxSlugLength);
    SliceKeepsShape(s, 0, |t|);
    var u := StripTrailingDashes(t);
    StripTrailingIsPrefix(t);
    SliceKeepsShape(t, 0, |u|);
    if u == [] then FallbackSlug else u
  }

  /** The corrected slug differs from the written one only where that one ends in a dash. */
  lemma FixedAgrees(name: string)
    ensures GenerateSlug(name)[|GenerateSlug(name)| - 1] != '-' ==> GenerateSlugFixed(name) == GenerateSlug(name)
  {
  }

  /** A string of lower-case letters and digits is its own lower case. */
  lemma {:induction false} LowerOfLowerAlnum(s: string)
    requires forall i :: 0 <= i < |s| ==> Text.IsLowerAlnum(s[i]) || s[i] == ' '
    ensures Lower(s) == s
  {
    if s != [] {
      LowerOfLowerAlnum(s[1..]);
      assert s == [s[0]] + s[1..];
    }
  }

  /** Collapsing leaves a prefix of `[a-z0-9]` characters alone. */
  lemma {:induction false} CollapseAlnumPrefix(p: string, s: string)
    requires forall i :: 0 <= i < |p| ==> Text.IsLowerAlnum(p[i])
    ensures Collapse(p + s) == p + Collapse(s)
  {
    if p == [] {
      assert p + s == s;
    } else {
      var q := p + s;
      assert q[0] == p[0] && Text.IsLowerAlnum(q[0]);
      assert q[1..] == p[1..] + s;
      CollapseAlnumPrefix(p[1..], s);
      calc {
        Collapse(q);
        [q[0]] + Collapse(q[1..]);
        [p[0]] + (p[1..] + Collapse(s));
        { assert p == [p[0]] + p[1..]; }
        p + Collapse(s);
      }
    }
  }

  /**
    The written slug can end in a dash: 63 letters, a space and one more
    letter collapse to 65 characters, and the cut at 64 keeps the dash.
   */
  lemma SlugTrailingDash()
    ensures var name := seq(63, i => 'a') + " b";
      GenerateSlug(name)[|GenerateSlug(name)| - 1] == '-'
  {
    TrailingDashAfter(seq(63, i => 'a'));
  }

  lemma TrailingDashAfter(p: string)
    requires |p| == MaxSlugLength - 1 && forall i :: 0 <= i < |p| ==> Text.IsLowerAlnum(p[i])
    ensures GenerateSlug(p + " b") == p + "-"
  {
    var c := p + "-b";
    StrippedOf(p);
    CutBeforeLast(p, '-', 'b');
    assert Take(c, MaxSlugLength) == p + "-";
  }

  lemma StrippedOf(p: string)
    requires p != [] && forall i :: 0 <= i < |p| ==> Text.IsLowerAlnum(p[i])
    ensures Stripped(p + " b") == p + "-b"
  {
    var c := p + "-b";
    CollapsedOf(p);
    assert Text.IsLowerAlnum(p[0]);
    assert c[0] == p[0] && c[|c| - 1] == 'b';
    assert StripLeadingDashes(c) == c;
    assert StripTrailingDashes(c) == c;
  }

  lemma CollapsedOf(p: string)
    requires forall i :: 0 <= i < |p| ==> Text.IsLowerAlnum(p[i])
    ensures Collapse(Lower(p + " b")) == p + "-b"
  {
    var q := [' ', 'b'];
    assert " b" == q && "-b" == ['-', 'b'];
    LowerOfLowerAlnumSpace(p, q);
    CollapseAlnumPrefix(p, q);
    CollapseGap(' ', 'b');
  }

  lemma LowerOfLowerAlnumSpace(p: string, q: string)
    requires forall i :: 0 <= i < |p| ==> Text.IsLowerAlnum(p[i])
    requires forall i :: 0 <= i < |q| ==> Text.IsLowerAlnum(q[i]) || q[i] == ' '
    ensures Lower(p + q) == p + q
  {
    var name := p + q;
    forall i | 0 <= i < |name| ensures Text.IsLowerAlnum(name[i]) || name[i] == ' ' {
      if i < |p| { assert name[i] == p[i]; } else { assert name[i] == q[i - |p|]; }
    }
    LowerOfLowerAlnum(name);
  }

  lemma CollapseGap(x: char, y: char)
    requires !Text.IsLowerAlnum(x) && Text.IsLowerAlnum(y)
    ensures Collapse([x, y]) == ['-', y]
  {
    assert [x, y][1..] == [y];
    assert DropRun([y]) == [y];
    assert Collapse([y]) == [y] by { assert [y][1..] == []; }
  }

  lemma CutBeforeLast(p: string, x: char, y: char)
    ensures (p + [x, y])[..|p| + 1] == p + [x]
  {
  }

  /** A string already in slug form passes through the pipeline unchanged. */
  lemma {:induction false} CollapseOfSlug(s: string)
    requires SlugChars(s) && NoDoubleDash(s) && (s == [] || s[0] != '-' || |s| == 1 || s[1] != '-')
    ensures Collapse(s) == s
  {
    if s != [] {
      if s[0] != '-' {
        CollapseOfSlug(s[1..]);
        assert s == [s[0]] + s[1..];
      } else {
        assert DropRun(s[1..]) == s[1..];
        CollapseOfSlug(s[1..]);
        assert s == [s[0]] + s[1..];
      }
    }
  }

  /** Generating the corrected slug of a corrected slug changes nothing. */
  lemma SlugIdempotent(name: string)
    ensures GenerateSlugFixed(GenerateSlugFixed(name)) == GenerateSlugFixed(name)
  {
    var s := GenerateSlugFixed(name);
    LowerOfLowerAlnumDash(s);
    CollapseOfSlug(s);
    assert StripLeadingDashes(s) == s;
    assert StripTrailingDashes(s) == s;
  }

  /** Lower-casing leaves slug characters alone. */
  lemma {:induction false} LowerOfLowerAlnumDash(s: string)
    requires SlugChars(s)
    ensures Lower(s) == s
  {
    if s != [] {
      LowerOfLowerAlnumDash(s[1..]);
      assert s == [s[0]] + s[1..];
    }
  }

  // ---------------------------------------------------------------------
  // The unique-suffix loop
  // ---------------------------------------------------------------------

  /** The `k`-th candidate: the slug itself for 1, `<slug>-<k>` from 2 on. */
  function Candidate(slug: string, k: nat): string {
    if k <= 1 then slug else slug + "-" + Text.NatToString(k)
  }

  lemma CandidateInjective(slug: string, j: nat, k: nat)
    requires 1 <= j && 1 <= k && Candidate(slug, j) == Candidate(slug, k)
    ensures j == k
  {
    if j >= 2 && k >= 2 {
      var n := |slug| + 1;
      assert Candidate(slug, j)[n..] == Text.NatToString(j);
      assert Candidate(slug, k)[n..] == Text.NatToString(k);
      Text.NatToStringInjective(j, k);
    }
  }

  /**
    The loop over `slugExists`: the chosen slug is free, and it is the base
    slug when that is free, otherwise `<slug>-<k>` for the least `k ≥ 2`
    whose candidate is free.
   */
  method UniqueSlug(slug: string, taken: set<string>) returns (finalSlug: string)
    ensures finalSlug !in taken
    ensures exists k: nat :: (k >= 1 && finalSlug == Candidate(slug, k)
      && forall j: nat :: 1 <= j < k ==> Candidate(slug, j) in taken)
  {
    finalSlug := slug;
    var suffix: nat := 2;
    ghost var seen: set<string> := {};
    while finalSlug in taken
      invariant suffix >= 2
      invariant finalSlug == Candidate(slug, suffix - 1)
      invariant forall j: nat :: 1 <= j < suffix - 1 ==> Candidate(slug, j) in taken
      invariant seen <= taken && |seen| == suffix - 2
      invariant forall x :: x in seen ==> exists j: nat :: 1 <= j < suffix - 1 && x == Candidate(slug, j)
      decreases |taken| - |seen|
    {
      if finalSlug in seen {
        var j: nat :| 1 <= j < suffix - 1 && finalSlug == Candidate(slug, j);
        CandidateInjective(slug, j, suffix - 1);
        assert false;
      }
      seen := seen + {finalSlug};
      SubsetSize(seen, taken);
      finalSlug := Candidate(slug, suffix);
      suffix := suffix + 1;
    }
  }

  lemma {:induction false} SubsetSize(a: set<string>, b: set<string>)
    requires a <= b
    ensures |a| <= |b|
  {
    if a != {} {
      var x :| x in a;
      SubsetSize(a - {x}, b - {x});
    }
  }

  // ---------------------------------------------------------------------
  // POST /api/spaces
  // ---------------------------------------------------------------------

  /**
    The spaces that exist: slug to display name, and the storage directories
    created for them. `createDb`, `slugExists` and `ensureSpaceDir` act on
    this registry.
   */
  class SpaceRegistry {
    var spaces: map<string, string>
    var dirs: set<string>

    constructor ()
      ensures spaces == map[] && dirs == {}
    {
      spaces := map[];
      dirs := {};
    }

    /**
      `POST`. A missing, non-string or blank name is 400; a slug that
      `validateSpaceSlug` refuses is 400; otherwise a new space is
      registered under a free slug, with the trimmed name, and returned.
     */
    method Post(name: Option<string>, validSlug: string -> bool) returns (resp: Response<Space>)
      modifies this
      ensures name.None? || Text.Trim(name.value) == "" ==>
        resp == Error(400, NameRequired) && spaces == old(spaces) && dirs == old(dirs)
      ensures name.Some? && Text.Trim(name.value) != "" && !validSlug(GenerateSlugFixed(Text.Trim(name.value))) ==>
        resp == Error(400, InvalidName) && spaces == old(spaces) && dirs == old(dirs)
      ensures name.Some? && Text.Trim(name.value) != "" && validSlug(GenerateSlugFixed(Text.Trim(name.value))) ==>
        && resp.Ok? && resp.status == 201
        && resp.body.name == Text.Trim(name.value)
        && resp.body.slug !in old(spaces)
        && (exists k: nat :: k >= 1 && resp.body.slug == Candidate(GenerateSlugFixed(Text.Trim(name.value)), k)
              && forall j: nat :: 1 <= j < k ==> Candidate(GenerateSlugFixed(Text.Trim(name.value)), j) in old(spaces))
        && spaces == old(spaces)[resp.body.slug := resp.body.name]
        && dirs == old(dirs) + {resp.body.slug}
    {
      if name.None? || Text.Trim(name.value) == "" {
        return Error(400, NameRequired);
      }
      var trimmed := Text.Trim(name.value);
      var slug := GenerateSlugFixed(trimmed);
      if !validSlug(slug) {
        return Error(400, InvalidName);
      }
      var finalSlug := UniqueSlug(slug, spaces.Keys);
      spaces := spaces[finalSlug := trimmed];
      dirs := dirs + {finalSlug};
      resp := Ok(201, Space(finalSlug, trimmed));
    }
  }
}
