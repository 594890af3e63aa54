/**
 * The brochure controller's `slugify` (backend/src/controllers/brochureController.js):
 * lower-case, trim, turn each white-space run into `-`, drop every character
 * that is neither a word character nor `-`, and squeeze hyphen runs to one.
 */
module Slug {
  import opened Text
  import opened Common

  /** The characters a slug is made of: lower-case ASCII word characters and `-`. */
  predicate IsSlugChar(c: char) { IsLowerLetter(c) || IsDigit(c) || c == '_' || c == '-' }

  /** The characters kept by `replace(/[^\w-]+/g, '')`. */
  predicate IsKept(c: char) { IsWordChar(c) || c == '-' }

  /** No `--` anywhere. */
  ghost predicate NoDoubleHyphen(s: string) {
    forall i, j :: 0 <= i < j < |s| && j == i + 1 ==> !(s[i] == '-' && s[j] == '-')
  }

  /** What `slugify` can produce. */
  ghost predicate IsSlug(s: string) {
    (forall i :: 0 <= i < |s| ==> IsSlugChar(s[i])) && NoDoubleHyphen(s)
  }

  /** The two character classes whose runs `slugify` turns into a single `-`. */
  datatype RunClass = Spaces | Hyphens

  predicate InRun(cls: RunClass, c: char) {
    match cls
    case Spaces => IsSpace(c)
    case Hyphens => c == '-'
  }

  /** Drops the leading characters of class `cls`. */
  function SkipRun(s: string, cls: RunClass): (r: string)
    ensures |r| <= |s|
    ensures r == [] || !InRun(cls, r[0])
  {
    if s != [] && InRun(cls, s[0]) then SkipRun(s[1..], cls) else s
  }

  /** What `SkipRun` leaves is a suffix of its input. */
  lemma {:induction false} SkipRunSuffix(s: string, cls: RunClass)
    ensures SkipRun(s, cls) == s[|s| - |SkipRun(s, cls)|..]
  {
    if s != [] && InRun(cls, s[0]) {
      SkipRunSuffix(s[1..], cls);
    }
  }

  /** `replace(/R+/g, '-')` for the class `R` named by `cls`: every maximal run becomes one `-`. */
  function CollapseRuns(s: string, cls: RunClass): (r: string)
    decreases |s|
  {
    if s == [] then []
    else if InRun(cls, s[0]) then "-" + CollapseRuns(SkipRun(s[1..], cls), cls)
    else [s[0]] + CollapseRuns(s[1..], cls)
  }

  /**
   * After collapsing, the only class member left is `-`, no two class members
   * are adjacent, and a string that does not start inside a run keeps its first character.
   */
  lemma {:induction false} CollapseRunsShape(s: string, cls: RunClass)
    ensures var r := CollapseRuns(s, cls);
      && (forall i :: 0 <= i < |r| && InRun(cls, r[i]) ==> r[i] == '-')
      && (forall i, j :: 0 <= i < j < |r| && j == i + 1 ==> !(InRun(cls, r[i]) && InRun(cls, r[j])))
      && (s == [] <==> r == [])
      && (r != [] && !InRun(cls, s[0]) ==> r[0] == s[0])
    decreases |s|
  {
    if s != [] {
      var r := CollapseRuns(s, cls);
      if InRun(cls, s[0]) {
        var u := SkipRun(s[1..], cls);
        CollapseRunsShape(u, cls);
        var rest := CollapseRuns(u, cls);
        assert r == "-" + rest;
        assert rest == [] || !InRun(cls, rest[0]);
        forall i | 0 <= i < |r| && InRun(cls, r[i]) ensures r[i] == '-' {
          if i > 0 { assert r[i] == rest[i - 1]; }
        }
        forall i, j | 0 <= i < j < |r| && j == i + 1 ensures !(InRun(cls, r[i]) && InRun(cls, r[j])) {
          if i > 0 { assert r[i] == rest[i - 1] && r[j] == rest[j - 1]; }
        }
      } else {
        CollapseRunsShape(s[1..], cls);
        var rest := CollapseRuns(s[1..], cls);
        assert r == [s[0]] + rest;
        forall i | 0 <= i < |r| && InRun(cls, r[i]) ensures r[i] == '-' {
          if i > 0 { assert r[i] == rest[i - 1]; }
        }
        forall i, j | 0 <= i < j < |r| && j == i + 1 ensures !(InRun(cls, r[i]) && InRun(cls, r[j])) {
          if i > 0 { assert r[i] == rest[i - 1] && r[j] == rest[j - 1]; }
        }
      }
    }
  }

  /** Runs never span the boundary after a character outside the class, so collapsing distributes over it. */
  lemma {:induction false} CollapseRunsAppend(a: string, b: string, cls: RunClass)
    requires a == [] || !InRun(cls, a[|a| - 1])
    ensures CollapseRuns(a + b, cls) == CollapseRuns(a, cls) + CollapseRuns(b, cls)
    decreases |a|, 1
  {
    if a == [] {
      assert a + b == b;
    } else if InRun(cls, a[0]) {
      CollapseRunsAppendRun(a, b, cls);
    } else {
      var t := a[1..];
      assert (a + b)[1..] == t + b;
      assert t == [] || !InRun(cls, t[|t| - 1]) by {
        if t != [] { assert t[|t| - 1] == a[|a| - 1]; }
      }
      CollapseRunsAppend(t, b, cls);
    }
  }

  /** The case of `CollapseRunsAppend` where `a` starts inside a run. */
  lemma {:induction false} CollapseRunsAppendRun(a: string, b: string, cls: RunClass)
    requires a != [] && InRun(cls, a[0]) && !InRun(cls, a[|a| - 1])
    ensures CollapseRuns(a + b, cls) == CollapseRuns(a, cls) + CollapseRuns(b, cls)
    decreases |a|, 0
  {
    var t := a[1..];
    assert (a + b)[1..] == t + b;
    var u := SkipRun(t, cls);
    assert SkipRun(t + b, cls) == u + b && u != [] && !InRun(cls, u[|u| - 1]) by {
      assert t[|t| - 1] == a[|a| - 1];
      SkipRunAppend(t, b, cls);
      SkipRunSuffix(t, cls);
    }
    CollapseRunsAppend(u, b, cls);
    calc {
      CollapseRuns(a + b, cls);
      "-" + CollapseRuns(u + b, cls);
      "-" + (CollapseRuns(u, cls) + CollapseRuns(b, cls));
      { ConcatAssoc("-", CollapseRuns(u, cls), CollapseRuns(b, cls)); }
      ("-" + CollapseRuns(u, cls)) + CollapseRuns(b, cls);
      CollapseRuns(a, cls) + CollapseRuns(b, cls);
    }
  }

  lemma {:induction false} SkipRunAppend(a: string, b: string, cls: RunClass)
    requires a != [] && !InRun(cls, a[|a| - 1])
    ensures SkipRun(a, cls) != []
    ensures SkipRun(a + b, cls) == SkipRun(a, cls) + b
    decreases |a|
  {
    assert (a + b)[0] == a[0];
    if InRun(cls, a[0]) {
      assert |a| > 1;
      assert (a + b)[1..] == a[1..] + b;
      assert a[1..][|a[1..]| - 1] == a[|a| - 1];
      SkipRunAppend(a[1..], b, cls);
      assert SkipRun(a + b, cls) == SkipRun(a[1..] + b, cls);
      assert SkipRun(a, cls) == SkipRun(a[1..], cls);
    } else {
      assert SkipRun(a + b, cls) == a + b;
      assert SkipRun(a, cls) == a;
    }
  }

  /** Every character of the result is `-` or a character of `s`, so a property of both holds of the result. */
  lemma {:induction false} CollapseRunsPreserves(s: string, cls: RunClass, p: char -> bool)
    requires p('-')
    requires forall i :: 0 <= i < |s| ==> p(s[i])
    ensures forall i :: 0 <= i < |CollapseRuns(s, cls)| ==> p(CollapseRuns(s, cls)[i])
    decreases |s|
  {
    if s != [] {
      var t := s[1..];
      var r := CollapseRuns(s, cls);
      if InRun(cls, s[0]) {
        var u := SkipRun(t, cls);
        SkipRunSuffix(t, cls);
        forall i | 0 <= i < |u| ensures p(u[i]) {
          assert u[i] == s[|s| - |u| + i];
        }
        CollapseRunsPreserves(u, cls, p);
        var rest := CollapseRuns(u, cls);
        assert r == "-" + rest;
        forall i | 0 <= i < |r| ensures p(r[i]) {
          if i > 0 { assert r[i] == rest[i - 1]; }
        }
      } else {
        forall i | 0 <= i < |t| ensures p(t[i]) {
          assert t[i] == s[i + 1];
        }
        CollapseRunsPreserves(t, cls, p);
        var rest := CollapseRuns(t, cls);
        assert r == [s[0]] + rest;
        forall i | 0 <= i < |r| ensures p(r[i]) {
          if i > 0 { assert r[i] == rest[i - 1]; }
        }
      }
    }
  }

  /** A string whose class members are lone hyphens is left alone. */
  lemma {:induction false} CollapseRunsIdentity(s: string, cls: RunClass)
    requires forall i :: 0 <= i < |s| && InRun(cls, s[i]) ==> s[i] == '-'
    requires forall i, j :: 0 <= i < j < |s| && j == i + 1 ==> !(InRun(cls, s[i]) && InRun(cls, s[j]))
    ensures CollapseRuns(s, cls) == s
    decreases |s|
  {
    if s != [] {
      var t := s[1..];
      assert forall i :: 0 <= i < |t| ==> t[i] == s[i + 1];
      if InRun(cls, s[0]) {
        assert t == [] || !InRun(cls, t[0]);
        assert SkipRun(t, cls) == t;
      }
      CollapseRunsIdentity(t, cls);
    }
  }

  predicate NotUpper(c: char) { !IsUpper(c) }

  /** `replace(/\s+/g, '-')`. */
  function DashSpaces(s: string): string { CollapseRuns(s, Spaces) }

  /** `replace(/[^\w-]+/g, '')`. */
  function KeepWordChars(s: string): string { Filter(s, IsKept) }

  /** `replace(/--+/g, '-')`. */
  function SqueezeHyphens(s: string): string { CollapseRuns(s, Hyphens) }

  /** `slugify(text)`: `toLowerCase`, `trim`, then the three replacements in order. */
  function Slugify(text: string): string {
    SqueezeHyphens(KeepWordChars(DashSpaces(Trim(Lower(text)))))
  }

  /** Lower-casing then trimming leaves no upper-case letter. */
  lemma TrimLowerNoUpper(text: string)
    ensures forall i :: 0 <= i < |Trim(Lower(text))| ==> NotUpper(Trim(Lower(text))[i])
  {
    var lowered := Lower(text);
    forall i | 0 <= i < |lowered| ensures NotUpper(lowered[i]) {
      assert lowered[i] == ToLower(text[i]);
    }
    TrimPreserves(lowered, NotUpper);
  }

  /** Dropping the non-word characters of a string without upper-case letters leaves slug characters. */
  lemma KeptAreSlugChars(s: string)
    requires forall i :: 0 <= i < |s| ==> NotUpper(s[i])
    ensures forall i :: 0 <= i < |KeepWordChars(s)| ==> IsSlugChar(KeepWordChars(s)[i])
  {
    var kept := KeepWordChars(s);
    FilterMembers(s, IsKept);
    forall i | 0 <= i < |kept| ensures IsSlugChar(kept[i]) {
      assert kept[i] in s && IsKept(kept[i]);
    }
  }

  /** Whatever the input, `slugify` yields lower-case word characters and single hyphens only. */
  lemma SlugifyIsSlug(text: string)
    ensures IsSlug(Slugify(text))
  {
    var trimmed := Trim(Lower(text));
    TrimLowerNoUpper(text);
    CollapseRunsPreserves(trimmed, Spaces, NotUpper);
    var dashed := DashSpaces(trimmed);
    KeptAreSlugChars(dashed);
    var kept := KeepWordChars(dashed);
    CollapseRunsPreserves(kept, Hyphens, IsSlugChar);
    CollapseRunsShape(kept, Hyphens);
  }

  lemma TrimLowerFixesSlug(s: string)
    requires IsSlug(s)
    ensures Trim(Lower(s)) == s
  {
    LowerOfLower(s);
    if s != [] {
      assert IsSlugChar(s[0]) && IsSlugChar(s[|s| - 1]);
    }
    TrimNoSpace(s);
  }

  lemma DashSpacesFixesSlug(s: string)
    requires IsSlug(s)
    ensures DashSpaces(s) == s
  {
    assert forall i :: 0 <= i < |s| ==> !IsSpace(s[i]);
    CollapseRunsIdentity(s, Spaces);
  }

  lemma KeepWordCharsFixesSlug(s: string)
    requires IsSlug(s)
    ensures KeepWordChars(s) == s
  {
    assert forall i :: 0 <= i < |s| ==> IsKept(s[i]);
    FilterAll(s, IsKept);
  }

  lemma SqueezeHyphensFixesSlug(s: string)
    requires IsSlug(s)
    ensures SqueezeHyphens(s) == s
  {
    CollapseRunsIdentity(s, Hyphens);
  }

  /** `slugify` leaves a slug unchanged. */
  lemma SlugifyFixesSlugs(s: string)
    requires IsSlug(s)
    ensures Slugify(s) == s
  {
    TrimLowerFixesSlug(s);
    DashSpacesFixesSlug(s);
    KeepWordCharsFixesSlug(s);
    SqueezeHyphensFixesSlug(s);
  }

  /** `slugify` is idempotent. */
  lemma SlugifyIdempotent(text: string)
    ensures Slugify(Slugify(text)) == Slugify(text)
  {
    SlugifyIsSlug(text);
    SlugifyFixesSlugs(Slugify(text));
  }

  /** Skipping a whole run lands on what follows it. */
  lemma {:induction false} SkipRunAll(run: string, b: string, cls: RunClass)
    requires forall i :: 0 <= i < |run| ==> InRun(cls, run[i])
    requires b == [] || !InRun(cls, b[0])
    ensures SkipRun(run + b, cls) == b
  {
    if run == [] {
      assert run + b == b;
    } else {
      assert (run + b)[1..] == run[1..] + b;
      assert forall i :: 0 <= i < |run[1..]| ==> run[1..][i] == run[i + 1];
      SkipRunAll(run[1..], b, cls);
    }
  }

  /** One run between two stretches outside it becomes a single `-`. */
  lemma CollapseOneRun(a: string, run: string, b: string, cls: RunClass)
    requires a == [] || !InRun(cls, a[|a| - 1])
    requires run != [] && forall i :: 0 <= i < |run| ==> InRun(cls, run[i])
    requires b == [] || !InRun(cls, b[0])
    ensures CollapseRuns(a + run + b, cls) == CollapseRuns(a, cls) + "-" + CollapseRuns(b, cls)
  {
    var x := run + b;
    assert x[0] == run[0];
    assert x[1..] == run[1..] + b;
    assert forall i :: 0 <= i < |run[1..]| ==> run[1..][i] == run[i + 1];
    SkipRunAll(run[1..], b, cls);
    assert CollapseRuns(x, cls) == "-" + CollapseRuns(b, cls);
    CollapseRunsAppend(a, x, cls);
    ConcatAssoc(a, run, b);
    ConcatAssoc(CollapseRuns(a, cls), "-", CollapseRuns(b, cls));
  }

  /** One blank run between two blank-free words becomes one hyphen. */
  lemma DashSpacesOneRun(a: string, run: string, b: string)
    requires forall i :: 0 <= i < |a| ==> !IsSpace(a[i])
    requires run != [] && forall i :: 0 <= i < |run| ==> IsSpace(run[i])
    requires forall i :: 0 <= i < |b| ==> !IsSpace(b[i])
    ensures DashSpaces(a + run + b) == a + "-" + b
  {
    CollapseOneRun(a, run, b, Spaces);
    CollapseRunsIdentity(a, Spaces);
    CollapseRunsIdentity(b, Spaces);
  }

  /** One hyphen run between two hyphen-free words becomes one hyphen. */
  lemma SqueezeHyphensOneRun(a: string, run: string, b: string)
    requires forall i :: 0 <= i < |a| ==> a[i] != '-'
    requires run != [] && forall i :: 0 <= i < |run| ==> run[i] == '-'
    requires forall i :: 0 <= i < |b| ==> b[i] != '-'
    ensures SqueezeHyphens(a + run + b) == a + "-" + b
  {
    CollapseOneRun(a, run, b, Hyphens);
    CollapseRunsIdentity(a, Hyphens);
    CollapseRunsIdentity(b, Hyphens);
  }

  /** Dropping a tail of removed characters after a stretch of kept ones. */
  lemma KeepWordCharsDropsTail(a: string, b: string)
    requires forall i :: 0 <= i < |a| ==> IsKept(a[i])
    requires forall i :: 0 <= i < |b| ==> !IsKept(b[i])
    ensures KeepWordChars(a + b) == a
  {
    FilterAppend(a, b, IsKept);
    FilterAll(a, IsKept);
    FilterNone(b, IsKept);
  }

  /**
   * Two blank-separated words with punctuation after the second: the blanks
   * around go, the blanks between become one hyphen, the punctuation is dropped.
   */
  lemma SlugifyTwoWords(text: string, lead: string, a: string, run: string, b: string, tail: string, trail: string)
    requires Lower(text) == lead + (a + run + b + tail) + trail
    requires forall i :: 0 <= i < |lead| ==> IsSpace(lead[i])
    requires forall i :: 0 <= i < |trail| ==> IsSpace(trail[i])
    requires run != [] && forall i :: 0 <= i < |run| ==> IsSpace(run[i])
    requires a != [] && forall i :: 0 <= i < |a| ==> IsWordChar(a[i])
    requires b != [] && forall i :: 0 <= i < |b| ==> IsWordChar(b[i])
    requires tail != [] && forall i :: 0 <= i < |tail| ==> !IsKept(tail[i]) && !IsSpace(tail[i])
    ensures Slugify(text) == a + "-" + b
  {
    var middle := a + run + b + tail;
    assert middle[0] == a[0];
    assert middle[|middle| - 1] == tail[|tail| - 1];
    TrimSurrounding(lead, middle, trail);
    var bt := b + tail;
    assert middle == a + run + bt;
    assert forall i :: 0 <= i < |bt| ==> !IsSpace(bt[i]) by {
      forall i | 0 <= i < |bt| ensures !IsSpace(bt[i]) {
        if i < |b| { assert bt[i] == b[i]; } else { assert bt[i] == tail[i - |b|]; }
      }
    }
    DashSpacesOneRun(a, run, bt);
    var word := a + "-" + b;
    assert a + "-" + bt == word + tail;
    assert forall i :: 0 <= i < |word| ==> IsKept(word[i]) by {
      forall i | 0 <= i < |word| ensures IsKept(word[i]) {
        if i < |a| { assert word[i] == a[i]; }
        else if i > |a| { assert word[i] == b[i - |a| - 1]; }
      }
    }
    KeepWordCharsDropsTail(word, tail);
    assert forall i, j :: 0 <= i < j < |word| && j == i + 1 ==> !(word[i] == '-' && word[j] == '-') by {
      forall i, j | 0 <= i < j < |word| && j == i + 1 ensures !(word[i] == '-' && word[j] == '-') {
        if i < |a| { assert word[i] == a[i]; }
        else if i == |a| { assert word[j] == b[0]; }
        else { assert word[i] == b[i - |a| - 1]; }
      }
    }
    assert forall i :: 0 <= i < |word| && InRun(Hyphens, word[i]) ==> word[i] == '-';
    CollapseRunsIdentity(word, Hyphens);
  }

  /** The first documented example: surrounding blanks go, the inner blank run becomes one hyphen, `!` is dropped. */
  lemma SlugifyExampleUniversity()
    ensures Slugify("  Some   University! ") == "some-university"
  {
    UniversityLowered();
    SlugifyTwoWords("  Some   University! ", "  ", "some", "   ", "university", "!", " ");
    UniversityJoined();
  }

  lemma UniversityLowered()
    ensures Lower("  Some   University! ") == "  " + ("some" + "   " + "university" + "!") + " "
  {
  }

  lemma UniversityJoined()
    ensures "some" + "-" + "university" == "some-university"
  {
  }

  /** The second documented example: case is folded and a hyphen run is squeezed. */
  lemma SlugifyExampleHyphens()
    ensures Slugify("A--B") == "a-b"
  {
    HyphensLowered();
    TrimNoSpace("a--b");
    CollapseRunsIdentity("a--b", Spaces);
    FilterAll("a--b", IsKept);
    SqueezeHyphensOneRun("a", "--", "b");
  }

  lemma HyphensLowered()
    ensures Lower("A--B") == "a" + "--" + "b"
  {
  }
}
