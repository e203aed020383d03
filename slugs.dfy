/** SLUG_PATTERN and `slug_generator` of
    backend/api-validation/resources/pydantic-models.py.

    `slug_generator` lower-cases its input, deletes every character outside
    `[\w\s-]`, replaces each run of `[\s_-]` by one '-', and strips '-' from
    both ends. Character classes are ASCII; `\s` is what Python's `re` treats
    as white space in that range (tab to carriage return, the four separator
    controls 0x1C-0x1F, and space). */
module Slugs {
  import opened Common
  import Validation

  /** `[a-z0-9-]`, the characters a slug may hold. */
  predicate IsSlugChar(c: char) { IsLowerAscii(c) || IsDigit(c) || c == '-' }

  /** No two consecutive '-'. */
  predicate NoDoubleDash(t: string)
  {
    forall i :: 0 <= i < |t| - 1 ==> !(t[i] == '-' && t[i + 1] == '-')
  }

  /** `[a-z0-9]` */
  predicate IsSlugAlnum(c: char) { IsLowerAscii(c) || IsDigit(c) }

  /** SLUG_PATTERN, `[a-z0-9]+(?:-[a-z0-9]+)*`, read left to right: an
      alphanumeric character, then the rest as `AfterAlnum` accepts it. */
  predicate SlugPattern(t: string)
    decreases |t|
  {
    |t| > 0 && IsSlugAlnum(t[0]) && AfterAlnum(t[1..])
  }

  /** What may follow an alphanumeric character inside the pattern: nothing,
      another alphanumeric character, or a '-' that starts a new run. */
  predicate AfterAlnum(t: string)
    decreases |t|
  {
    || t == []
    || (IsSlugAlnum(t[0]) && AfterAlnum(t[1..]))
    || (t[0] == '-' && SlugPattern(t[1..]))
  }

  /** The tail after an alphanumeric character is accepted exactly when it
      holds only slug characters, no doubled '-' and does not end in '-'. */
  lemma {:induction false} AfterAlnumIff(t: string)
    ensures AfterAlnum(t) <==>
              && (forall i :: 0 <= i < |t| ==> IsSlugChar(t[i]))
              && NoDoubleDash(t)
              && (t == [] || t[|t| - 1] != '-')
    decreases |t|
  {
    if t != [] {
      var u := t[1..];
      AfterAlnumIff(u);
      if u != [] {
        AfterAlnumIff(u[1..]);
        assert forall i :: 1 <= i < |u| ==> u[i] == u[1..][i - 1];
      }
      assert forall i :: 1 <= i < |t| ==> t[i] == u[i - 1];
    }
  }

  /** What SLUG_PATTERN accepts, as a property of the whole text: alphanumeric
      runs joined by single '-', so non-empty, no '-' at either end, none
      doubled. It agrees with the pattern read left to right. */
  predicate SlugBody(t: string): (b: bool)
    ensures b <==> SlugPattern(t)
  {
    if t == [] then false
    else
      AfterAlnumIff(t[1..]);
      assert forall i :: 1 <= i < |t| ==> t[i] == t[1..][i - 1];
      && (forall i :: 0 <= i < |t| ==> IsSlugChar(t[i]))
      && t[0] != '-' && t[|t| - 1] != '-'
      && NoDoubleDash(t)
  }

  /** `\s` on ASCII characters. */
  predicate IsRegexSpace(c: char)
  {
    c == ' ' || 9 <= c as int <= 13 || 28 <= c as int <= 31
  }

  /** `[\w\s-]`: the characters the first substitution keeps. */
  predicate IsKept(c: char) { Validation.IsWordChar(c) || IsRegexSpace(c) || c == '-' }

  /** `[\s_-]`: the characters the second substitution collapses. */
  predicate IsSeparator(c: char) { IsRegexSpace(c) || c == '_' || c == '-' }

  /** `re.sub(r'[^\w\s-]', '', slug)` */
  function RemoveDisallowed(s: string): (r: string)
    ensures |r| <= |s|
    ensures forall i :: 0 <= i < |r| ==> IsKept(r[i])
  {
    if s == [] then []
    else (if IsKept(s[0]) then [s[0]] else []) + RemoveDisallowed(s[1..])
  }

  /** The filter removes exactly the disallowed characters: every kept
      character survives as often as it occurs, every other one vanishes. */
  lemma {:induction false} RemoveDisallowedCounts(s: string, c: char)
    ensures multiset(RemoveDisallowed(s))[c] == if IsKept(c) then multiset(s)[c] else 0
  {
    if s != [] {
      RemoveDisallowedCounts(s[1..], c);
      assert s == [s[0]] + s[1..];
      assert multiset(s) == multiset([s[0]]) + multiset(s[1..]);
      var head := if IsKept(s[0]) then [s[0]] else [];
      assert multiset(RemoveDisallowed(s)) == multiset(head) + multiset(RemoveDisallowed(s[1..]));
    }
  }

  /** The separators at the front of `s` removed. */
  function DropSeparators(s: string): (r: string)
    ensures |r| <= |s| && r == s[|s| - |r|..]
    ensures r == [] || !IsSeparator(r[0])
    ensures forall i :: 0 <= i < |s| - |r| ==> IsSeparator(s[i])
  {
    if s != [] && IsSeparator(s[0]) then DropSeparators(s[1..]) else s
  }

  /** `re.sub(r'[\s_-]+', '-', slug)`: every maximal run of separators becomes one '-'. */
  function CollapseSeparators(s: string): (r: string)
    decreases |s|
  {
    if s == [] then []
    else if IsSeparator(s[0]) then "-" + CollapseSeparators(DropSeparators(s[1..]))
    else [s[0]] + CollapseSeparators(s[1..])
  }

  /** `slug.lstrip('-')` */
  function TrimLeading(s: string): (r: string)
    ensures |r| <= |s| && r == s[|s| - |r|..]
    ensures r == [] || r[0] != '-'
    ensures forall i :: 0 <= i < |s| - |r| ==> s[i] == '-'
  {
    if s != [] && s[0] == '-' then
      var r := TrimLeading(s[1..]);
      assert s[1..][|s| - 1 - |r|..] == s[|s| - |r|..];
      assert forall i :: 1 <= i < |s| ==> s[i] == s[1..][i - 1];
      r
    else s
  }

  /** `slug.rstrip('-')` */
  function TrimTrailing(s: string): (r: string)
    ensures |r| <= |s| && r == s[..|r|]
    ensures r == [] || r[|r| - 1] != '-'
    ensures forall i :: |r| <= i < |s| ==> s[i] == '-'
  {
    if s != [] && s[|s| - 1] == '-' then TrimTrailing(s[..|s| - 1]) else s
  }

  /** `slug.strip('-')` */
  function StripDashes(s: string): string
  {
    TrimTrailing(TrimLeading(s))
  }

  /** `slug_generator` */
  function SlugGenerator(v: string): string
  {
    StripDashes(CollapseSeparators(RemoveDisallowed(ToLowerAscii(v))))
  }

  // ---------------------------------------------------------------------
  // What the output looks like
  // ---------------------------------------------------------------------

  /** The characters left after lower-casing and the first substitution. */
  predicate IsLoweredKept(c: char) { IsKept(c) && !IsUpperAscii(c) }

  predicate AllLoweredKept(s: string) { forall i :: 0 <= i < |s| ==> IsLoweredKept(s[i]) }

  predicate AllSlugChars(s: string) { forall i :: 0 <= i < |s| ==> IsSlugChar(s[i]) }

  /** Deleting characters cannot bring back an upper-case letter. */
  lemma {:induction false} RemoveKeepsLower(s: string)
    requires forall i :: 0 <= i < |s| ==> !IsUpperAscii(s[i])
    ensures AllLoweredKept(RemoveDisallowed(s))
  {
    if s != [] {
      RemoveKeepsLower(s[1..]);
      var rest := RemoveDisallowed(s[1..]);
      var r := RemoveDisallowed(s);
      assert r == rest || (r == [s[0]] + rest && forall i :: 1 <= i < |r| ==> r[i] == rest[i - 1]);
    }
  }

  lemma LoweredKept(v: string)
    ensures AllLoweredKept(RemoveDisallowed(ToLowerAscii(v)))
  {
    RemoveKeepsLower(ToLowerAscii(v));
  }

  /** Collapsing leaves only slug characters, and never two '-' in a row; its
      first character is '-' exactly when the input starts with a separator. */
  lemma {:induction false} CollapseShape(s: string)
    requires AllLoweredKept(s)
    ensures AllSlugChars(CollapseSeparators(s))
    ensures NoDoubleDash(CollapseSeparators(s))
    ensures s != [] ==>
              CollapseSeparators(s) != [] && (CollapseSeparators(s)[0] == '-' <==> IsSeparator(s[0]))
    decreases |s|
  {
    if s != [] {
      var r := CollapseSeparators(s);
      if IsSeparator(s[0]) {
        var d := DropSeparators(s[1..]);
        assert AllLoweredKept(d) by {
          forall i | 0 <= i < |d| ensures IsLoweredKept(d[i]) {
            assert d[i] == s[1..][|s[1..]| - |d| + i];
          }
        }
        CollapseShape(d);
        var rest := CollapseSeparators(d);
        assert r == "-" + rest;
        assert rest == [] || rest[0] != '-';
        assert forall i :: 1 <= i < |r| ==> r[i] == rest[i - 1];
      } else {
        assert AllLoweredKept(s[1..]) by {
          forall i | 0 <= i < |s[1..]| ensures IsLoweredKept(s[1..][i]) {
            assert s[1..][i] == s[i + 1];
          }
        }
        CollapseShape(s[1..]);
        var rest := CollapseSeparators(s[1..]);
        assert r == [s[0]] + rest;
        assert IsSlugChar(s[0]) && s[0] != '-';
        assert forall i :: 1 <= i < |r| ==> r[i] == rest[i - 1];
      }
    }
  }

  /** A slice of a string with no doubled '-' has none either. */
  lemma SliceKeepsShape(t: string, lo: int, hi: int)
    requires 0 <= lo <= hi <= |t|
    requires AllSlugChars(t) && NoDoubleDash(t)
    ensures AllSlugChars(t[lo..hi]) && NoDoubleDash(t[lo..hi])
  {
    assert forall i :: 0 <= i < hi - lo ==> t[lo..hi][i] == t[lo + i];
  }

  /** Stripping a string of slug characters with no doubled '-' leaves the
      empty string or a slug. */
  lemma StripShape(t: string)
    requires AllSlugChars(t) && NoDoubleDash(t)
    ensures StripDashes(t) == [] || SlugBody(StripDashes(t))
  {
    var a := TrimLeading(t);
    SliceKeepsShape(t, |t| - |a|, |t|);
    var b := TrimTrailing(a);
    SliceKeepsShape(a, 0, |b|);
    if b != [] {
      assert b[0] == a[0];
    }
  }

  /** The output of `slug_generator` is empty or matches SLUG_PATTERN: it holds
      only `[a-z0-9-]`, in particular no white space and no '_', has no '-' at
      either end and never two in a row. */
  lemma SlugGeneratorShape(v: string)
    ensures SlugGenerator(v) == [] || SlugBody(SlugGenerator(v))
  {
    var kept := RemoveDisallowed(ToLowerAscii(v));
    LoweredKept(v);
    CollapseShape(kept);
    StripShape(CollapseSeparators(kept));
  }

  /** Hence the generated slug passes the SLUG_PATTERN check of `PostCreate.slug`
      and `CategoryCreate.slug` whenever it is not empty. */
  lemma SlugGeneratorMatchesPattern(v: string)
    requires SlugGenerator(v) != []
    ensures Validation.DollarMatch(SlugGenerator(v), SlugBody)
  {
    SlugGeneratorShape(v);
  }

  // ---------------------------------------------------------------------
  // What the output holds
  // ---------------------------------------------------------------------

  /** The first substitution filters each part of a text on its own: the
      characters it keeps stay in their order. */
  lemma {:induction false} RemoveDisallowedAppend(a: string, b: string)
    ensures RemoveDisallowed(a + b) == RemoveDisallowed(a) + RemoveDisallowed(b)
  {
    if a == [] {
      assert a + b == b;
    } else {
      assert (a + b)[0] == a[0] && (a + b)[1..] == a[1..] + b;
      RemoveDisallowedAppend(a[1..], b);
    }
  }

  /** The letters and digits of a text, `[a-z0-9]`, in order. */
  function Alnums(s: string): (r: string)
    ensures |r| <= |s|
    ensures forall i :: 0 <= i < |r| ==> IsSlugAlnum(r[i])
  {
    if s == [] then []
    else (if IsSlugAlnum(s[0]) then [s[0]] else []) + Alnums(s[1..])
  }

  lemma {:induction false} AlnumsAppend(a: string, b: string)
    ensures Alnums(a + b) == Alnums(a) + Alnums(b)
  {
    if a == [] {
      assert a + b == b;
    } else {
      assert (a + b)[0] == a[0] && (a + b)[1..] == a[1..] + b;
      AlnumsAppend(a[1..], b);
    }
  }

  /** A text without letters or digits contributes none. */
  lemma {:induction false} AlnumsNone(s: string)
    requires forall i :: 0 <= i < |s| ==> !IsSlugAlnum(s[i])
    ensures Alnums(s) == []
  {
    if s != [] {
      AlnumsNone(s[1..]);
    }
  }

  /** The first substitution keeps every letter and digit, in order. */
  lemma {:induction false} RemoveKeepsAlnums(s: string)
    ensures Alnums(RemoveDisallowed(s)) == Alnums(s)
  {
    if s != [] {
      RemoveKeepsAlnums(s[1..]);
      var head := if IsKept(s[0]) then [s[0]] else [];
      AlnumsAppend(head, RemoveDisallowed(s[1..]));
      if head != [] {
        assert head[1..] == [];
      }
    }
  }

  lemma DropKeepsAlnums(s: string)
    ensures Alnums(DropSeparators(s)) == Alnums(s)
  {
    var r := DropSeparators(s);
    var pre := s[..|s| - |r|];
    assert s == pre + r;
    forall i | 0 <= i < |pre| ensures !IsSlugAlnum(pre[i]) {
      assert IsSeparator(s[i]);
    }
    AlnumsAppend(pre, r);
    AlnumsNone(pre);
  }

  lemma AlnumsCons(c: char, t: string)
    ensures Alnums([c] + t) == (if IsSlugAlnum(c) then [c] else []) + Alnums(t)
  {
    assert ([c] + t)[0] == c && ([c] + t)[1..] == t;
  }

  /** The second substitution only rewrites separators: every letter and
      digit between them survives, in order. */
  lemma {:induction false} CollapseKeepsAlnums(s: string)
    ensures Alnums(CollapseSeparators(s)) == Alnums(s)
    decreases |s|
  {
    if s != [] {
      var c, t := s[0], s[1..];
      if IsSeparator(c) {
        var d := DropSeparators(t);
        var rest := CollapseSeparators(d);
        assert CollapseSeparators(s) == ['-'] + rest;
        AlnumsCons('-', rest);
        CollapseKeepsAlnums(d);
        DropKeepsAlnums(t);
        assert !IsSlugAlnum(c) && Alnums(s) == Alnums(t);
      } else {
        var rest := CollapseSeparators(t);
        assert CollapseSeparators(s) == [c] + rest;
        AlnumsCons(c, rest);
        CollapseKeepsAlnums(t);
      }
    }
  }

  lemma TrimLeadingKeepsAlnums(s: string)
    ensures Alnums(TrimLeading(s)) == Alnums(s)
  {
    var a := TrimLeading(s);
    var pre := s[..|s| - |a|];
    assert s == pre + a;
    forall i | 0 <= i < |pre| ensures !IsSlugAlnum(pre[i]) {
      assert s[i] == '-';
    }
    AlnumsAppend(pre, a);
    AlnumsNone(pre);
  }

  lemma TrimTrailingKeepsAlnums(s: string)
    ensures Alnums(TrimTrailing(s)) == Alnums(s)
  {
    var b := TrimTrailing(s);
    var post := s[|b|..];
    assert s == b + post;
    forall i | 0 <= i < |post| ensures !IsSlugAlnum(post[i]) {
      assert s[|b| + i] == '-';
    }
    AlnumsAppend(b, post);
    AlnumsNone(post);
  }

  /** `strip('-')` removes only dashes. */
  lemma StripKeepsAlnums(s: string)
    ensures Alnums(StripDashes(s)) == Alnums(s)
  {
    TrimLeadingKeepsAlnums(s);
    TrimTrailingKeepsAlnums(TrimLeading(s));
  }

  /** The slug holds exactly the letters and digits of the lower-cased
      title, in their order: `slug_generator` loses none and adds none. */
  lemma SlugGeneratorAlnums(v: string)
    ensures Alnums(SlugGenerator(v)) == Alnums(ToLowerAscii(v))
  {
    var kept := RemoveDisallowed(ToLowerAscii(v));
    RemoveKeepsAlnums(ToLowerAscii(v));
    CollapseKeepsAlnums(kept);
    StripKeepsAlnums(CollapseSeparators(kept));
  }

  // ---------------------------------------------------------------------
  // Idempotence
  // ---------------------------------------------------------------------

  lemma {:induction false} RemoveKeepsKept(s: string)
    requires forall i :: 0 <= i < |s| ==> IsKept(s[i])
    ensures RemoveDisallowed(s) == s
  {
    if s != [] {
      RemoveKeepsKept(s[1..]);
      assert [s[0]] + s[1..] == s;
    }
  }

  lemma {:induction false} CollapseKeepsSlugShape(s: string)
    requires AllSlugChars(s) && NoDoubleDash(s)
    ensures CollapseSeparators(s) == s
    decreases |s|
  {
    if s != [] {
      SliceKeepsShape(s, 1, |s|);
      CollapseKeepsSlugShape(s[1..]);
      if IsSeparator(s[0]) {
        assert s[0] == '-';
        assert s[1..] == [] || s[1..][0] != '-';
        assert DropSeparators(s[1..]) == s[1..];
      }
      assert [s[0]] + s[1..] == s;
    }
  }

  /** A slug is left unchanged by the generator. */
  lemma SlugIsFixedPoint(t: string)
    requires SlugBody(t)
    ensures SlugGenerator(t) == t
  {
    assert ToLowerAscii(t) == t by {
      assert forall i :: 0 <= i < |t| ==> ToLowerAscii(t)[i] == t[i];
    }
    RemoveKeepsKept(t);
    CollapseKeepsSlugShape(t);
    assert TrimLeading(t) == t;
    assert TrimTrailing(t) == t;
  }

  /** `slug_generator` is idempotent. */
  lemma SlugGeneratorIdempotent(v: string)
    ensures SlugGenerator(SlugGenerator(v)) == SlugGenerator(v)
  {
    SlugGeneratorShape(v);
    if SlugGenerator(v) != [] {
      SlugIsFixedPoint(SlugGenerator(v));
    } else {
      assert ToLowerAscii([]) == [];
    }
  }

  lemma LowerExample()
    ensures ToLowerAscii("Hi, Bo!") == "hi, bo!"
  {
    var low := ToLowerAscii("Hi, Bo!");
    assert forall i :: 0 <= i < 7 ==> low[i] == "hi, bo!"[i];
  }

  lemma CollapseExample()
    ensures CollapseSeparators("hi bo") == "hi-bo"
  {
    assert !IsSeparator('o') && !IsSeparator('b') && !IsSeparator('h') && !IsSeparator('i');
    assert "o"[1..] == [] && "bo"[1..] == "o" && " bo"[1..] == "bo";
    assert "i bo"[1..] == " bo" && "hi bo"[1..] == "i bo";
    assert CollapseSeparators("o") == "o";
    assert CollapseSeparators("bo") == "bo";
    assert DropSeparators("bo") == "bo";
    assert CollapseSeparators(" bo") == "-bo";
  }

  lemma RemoveExample()
    ensures RemoveDisallowed("hi, bo!") == "hi bo"
  {
    assert !IsKept('!') && !IsKept(',') && IsKept(' ');
    assert "!"[1..] == [] && "o!"[1..] == "!" && "bo!"[1..] == "o!" && " bo!"[1..] == "bo!";
    assert ", bo!"[1..] == " bo!" && "i, bo!"[1..] == ", bo!" && "hi, bo!"[1..] == "i, bo!";
    assert RemoveDisallowed("!") == "";
    assert RemoveDisallowed("o!") == "o";
    assert RemoveDisallowed("bo!") == "bo";
    assert RemoveDisallowed(" bo!") == " bo";
    assert RemoveDisallowed(", bo!") == " bo";
    assert RemoveDisallowed("i, bo!") == "i bo";
  }

  /** Punctuation is dropped and the space becomes '-'. */
  lemma SlugExample()
    ensures SlugGenerator("Hi, Bo!") == "hi-bo"
  {
    LowerExample();
    RemoveExample();
    CollapseExample();
    var t := "hi-bo";
    assert t[0] == 'h' && t[|t| - 1] == 'o';
    assert TrimLeading(t) == t;
    assert TrimTrailing(t) == t;
  }
}
