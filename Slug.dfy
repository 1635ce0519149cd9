/**
 * Slug derivation for projects:
 * `title.toLowerCase().replace(/[^a-z0-9]+/g, '-').replace(/(^-|-$)/g, '')`,
 * written out character by character over ASCII.
 */
module Slug {

  /** The characters `[a-z0-9]` that survive into a slug. */
  predicate IsAlnum(c: char)
  {
    'a' <= c <= 'z' || '0' <= c <= '9'
  }

  predicate IsSlugChar(c: char)
  {
    IsAlnum(c) || c == '-'
  }

  function Lower(c: char): char
  {
    if 'A' <= c <= 'Z' then (c as int - 'A' as int + 'a' as int) as char else c
  }

  /** `toLowerCase()` on the ASCII letters; every other character is kept. */
  function LowerAscii(s: string): (r: string)
    ensures |r| == |s|
    ensures forall i :: 0 <= i < |s| ==> r[i] == Lower(s[i])
  {
    seq(|s|, i requires 0 <= i < |s| => Lower(s[i]))
  }

  ghost predicate NoDoubleHyphen(s: string)
  {
    forall i :: 0 <= i < |s| - 1 ==> !(s[i] == '-' && s[i + 1] == '-')
  }

  /** A well-formed slug: lower-case letters and digits in words joined by
      single hyphens, with no hyphen at either end. */
  ghost predicate IsSlug(s: string)
  {
    (forall i :: 0 <= i < |s| ==> IsSlugChar(s[i]))
    && NoDoubleHyphen(s)
    && (s != [] ==> s[0] != '-' && s[|s| - 1] != '-')
  }

  /** The input after the run of separators it starts with. */
  function DropSeparators(s: string): (r: string)
    ensures |r| <= |s|
    ensures r == [] || IsAlnum(r[0])
  {
    if s == [] || IsAlnum(s[0]) then s else DropSeparators(s[1..])
  }

  /** `replace(/[^a-z0-9]+/g, '-')`: every maximal run of characters outside
      `[a-z0-9]` becomes one hyphen. */
  function Hyphenate(s: string): string
    decreases |s|
  {
    if s == [] then []
    else if IsAlnum(s[0]) then [s[0]] + Hyphenate(s[1..])
    else "-" + Hyphenate(DropSeparators(s[1..]))
  }

  /** What collapsing runs guarantees: only `[a-z0-9-]`, never two hyphens in
      a row, and a leading hyphen exactly when the input starts with a
      separator. */
  lemma {:induction false} HyphenateShape(s: string)
    ensures var r := Hyphenate(s);
      && (forall i :: 0 <= i < |r| ==> IsSlugChar(r[i]))
      && NoDoubleHyphen(r)
      && (s == [] <==> r == [])
      && (s != [] ==> (r[0] == '-' <==> !IsAlnum(s[0])))
    decreases |s|
  {
    if s != [] {
      if IsAlnum(s[0]) {
        HyphenateShape(s[1..]);
      } else {
        HyphenateShape(DropSeparators(s[1..]));
      }
    }
  }

  /** `replace(/(^-|-$)/g, '')`: one hyphen off the front and one off the back. */
  function TrimHyphens(s: string): string
  {
    var t := if s != [] && s[0] == '-' then s[1..] else s;
    if t != [] && t[|t| - 1] == '-' then t[..|t| - 1] else t
  }

  /** `generateSlug(title)`. Because runs are collapsed before the ends are
      trimmed, the result is always a well-formed slug. */
  function GenerateSlug(title: string): (slug: string)
    ensures IsSlug(slug)
  {
    var h := Hyphenate(LowerAscii(title));
    HyphenateShape(LowerAscii(title));
    TrimmedSlug(h);
    TrimHyphens(h)
  }

  lemma TrimmedSlug(h: string)
    requires forall i :: 0 <= i < |h| ==> IsSlugChar(h[i])
    requires NoDoubleHyphen(h)
    ensures IsSlug(TrimHyphens(h))
  {
    var t := if h != [] && h[0] == '-' then h[1..] else h;
    assert t != [] ==> t[0] != '-' by {
      if h != [] && h[0] == '-' && t != [] {
        assert t[0] == h[1];
      }
    }
    if t != [] && t[|t| - 1] == '-' {
      var r := t[..|t| - 1];
      if r != [] {
        assert r[|r| - 1] == t[|t| - 2];
      }
    }
  }

  // ---------------------------------------------------------------------
  // Idempotence: well-formed slugs are exactly the fixed points
  // ---------------------------------------------------------------------

  lemma {:induction false} HyphenateKeepsSlugChars(s: string)
    requires forall i :: 0 <= i < |s| ==> IsSlugChar(s[i])
    requires NoDoubleHyphen(s)
    ensures Hyphenate(s) == s
  {
    if s != [] {
      var rest := s[1..];
      assert NoDoubleHyphen(rest) by {
        forall i | 0 <= i < |rest| - 1 ensures !(rest[i] == '-' && rest[i + 1] == '-') {
          assert rest[i] == s[i + 1] && rest[i + 1] == s[i + 2];
        }
      }
      HyphenateKeepsSlugChars(rest);
      if !IsAlnum(s[0]) {
        assert rest == [] || rest[0] != '-' by {
          if rest != [] { assert rest[0] == s[1]; }
        }
        assert DropSeparators(rest) == rest;
      }
    }
  }

  /** Deriving a slug from a well-formed slug gives it back. */
  lemma SlugIsFixedPoint(s: string)
    requires IsSlug(s)
    ensures GenerateSlug(s) == s
  {
    assert LowerAscii(s) == s;
    HyphenateKeepsSlugChars(s);
  }

  /** A string is its own slug exactly when it is a well-formed slug. */
  lemma FixedPointsAreSlugs(s: string)
    ensures GenerateSlug(s) == s <==> IsSlug(s)
  {
    if IsSlug(s) {
      SlugIsFixedPoint(s);
    }
  }

  /** Deriving twice is the same as deriving once. */
  lemma GenerateSlugIdempotent(title: string)
    ensures GenerateSlug(GenerateSlug(title)) == GenerateSlug(title)
  {
    SlugIsFixedPoint(GenerateSlug(title));
  }

  // ---------------------------------------------------------------------
  // Contents: the letters and digits of the title, in order
  // ---------------------------------------------------------------------

  /** The `[a-z0-9]` characters of `s`, in order. */
  function Alnums(s: string): string
  {
    if s == [] then [] else (if IsAlnum(s[0]) then [s[0]] else []) + Alnums(s[1..])
  }

  lemma {:induction false} AlnumsConcat(a: string, b: string)
    ensures Alnums(a + b) == Alnums(a) + Alnums(b)
  {
    if a == [] {
      assert a + b == b;
    } else {
      var h := if IsAlnum(a[0]) then [a[0]] else [];
      assert (a + b)[0] == a[0] && (a + b)[1..] == a[1..] + b;
      AlnumsConcat(a[1..], b);
      calc {
        Alnums(a + b);
        h + Alnums(a[1..] + b);
        h + (Alnums(a[1..]) + Alnums(b));
        (h + Alnums(a[1..])) + Alnums(b);
        Alnums(a) + Alnums(b);
      }
    }
  }

  lemma {:induction false} DropSeparatorsKeepsAlnums(s: string)
    ensures Alnums(DropSeparators(s)) == Alnums(s)
  {
    if s != [] && !IsAlnum(s[0]) {
      DropSeparatorsKeepsAlnums(s[1..]);
    }
  }

  lemma {:induction false} HyphenateKeepsAlnums(s: string)
    ensures Alnums(Hyphenate(s)) == Alnums(s)
    decreases |s|
  {
    if s != [] {
      if IsAlnum(s[0]) {
        HyphenateKeepsAlnums(s[1..]);
        AlnumsConcat([s[0]], Hyphenate(s[1..]));
      } else {
        var d := DropSeparators(s[1..]);
        HyphenateKeepsAlnums(d);
        DropSeparatorsKeepsAlnums(s[1..]);
        AlnumsConcat("-", Hyphenate(d));
      }
    }
  }

  lemma TrimKeepsAlnums(s: string)
    ensures Alnums(TrimHyphens(s)) == Alnums(s)
  {
    var t := if s != [] && s[0] == '-' then s[1..] else s;
    if s != [] && s[0] == '-' {
      DropHeadKeepsAlnums(s);
    }
    if t != [] && t[|t| - 1] == '-' {
      DropLastKeepsAlnums(t);
    }
  }

  lemma DropHeadKeepsAlnums(s: string)
    requires s != [] && s[0] == '-'
    ensures Alnums(s[1..]) == Alnums(s)
  {
  }

  lemma DropLastKeepsAlnums(t: string)
    requires t != [] && t[|t| - 1] == '-'
    ensures Alnums(t[..|t| - 1]) == Alnums(t)
  {
    AlnumsConcat(t[..|t| - 1], [t[|t| - 1]]);
    assert t == t[..|t| - 1] + [t[|t| - 1]];
  }

  /** The slug keeps exactly the letters and digits of the lower-cased
      title, in order; everything else became the hyphens between them. */
  lemma SlugKeepsAlnums(title: string)
    ensures Alnums(GenerateSlug(title)) == Alnums(LowerAscii(title))
  {
    var h := Hyphenate(LowerAscii(title));
    HyphenateKeepsAlnums(LowerAscii(title));
    TrimKeepsAlnums(h);
  }

  lemma {:induction false} NoAlnums(s: string)
    ensures Alnums(s) == [] <==> forall i :: 0 <= i < |s| ==> !IsAlnum(s[i])
  {
    if s != [] {
      NoAlnums(s[1..]);
      assert forall i :: 1 <= i < |s| ==> s[i] == s[1..][i - 1];
    }
  }

  /** The slug is empty exactly when the title has no ASCII letter or digit. */
  lemma EmptySlug(title: string)
    ensures GenerateSlug(title) == [] <==> forall i :: 0 <= i < |title| ==> !IsAlnum(Lower(title[i]))
  {
    var slug := GenerateSlug(title);
    SlugKeepsAlnums(title);
    NoAlnums(slug);
    NoAlnums(LowerAscii(title));
  }

  lemma {:induction false} HyphenateWord(w: string, s: string)
    requires forall i :: 0 <= i < |w| ==> IsAlnum(w[i])
    ensures Hyphenate(w + s) == w + Hyphenate(s)
  {
    if w == [] {
      assert w + s == s;
    } else {
      assert (w + s)[0] == w[0] && (w + s)[1..] == w[1..] + s;
      HyphenateWord(w[1..], s);
    }
  }

  lemma HyphenateSeparator(c: char, s: string)
    requires !IsAlnum(c)
    requires s == [] || IsAlnum(s[0])
    ensures Hyphenate([c] + s) == "-" + Hyphenate(s)
  {
    assert ([c] + s)[1..] == s;
  }

  /** A word, one separator, and a rest that starts a new word (or is empty). */
  lemma HyphenateJoin(w: string, c: char, s: string)
    requires forall i :: 0 <= i < |w| ==> IsAlnum(w[i])
    requires !IsAlnum(c)
    requires s == [] || IsAlnum(s[0])
    ensures Hyphenate(w + ([c] + s)) == w + ("-" + Hyphenate(s))
  {
    HyphenateWord(w, [c] + s);
    HyphenateSeparator(c, s);
  }

  /** An example title and its slug: capitals are lowered, each space
      becomes a hyphen, and the trailing `!` leaves no hyphen behind. */
  lemma Example()
    ensures GenerateSlug("Villa Al Noor Phase 2!") == "villa-al-noor-phase-2"
  {
    ExampleHyphenated();
    var h := "villa-al-noor-phase-2-";
    assert TrimHyphens(h) == h[..|h| - 1];
  }

  lemma ExampleHyphenated()
    ensures Hyphenate(LowerAscii("Villa Al Noor Phase 2!")) == "villa-al-noor-phase-2-"
  {
    var s8 := "2" + ['!'];
    var s6 := "phase" + ([' '] + s8);
    var s4 := "noor" + ([' '] + s6);
    var s2 := "al" + ([' '] + s4);
    var s0 := "villa" + ([' '] + s2);
    ExampleLowered(s0, s2, s4, s6, s8);
    ExampleWords(s0, s2, s4, s6, s8);
  }

  /** The lowered example, built up word by word from the end. */
  ghost predicate ExampleSplit(s0: string, s2: string, s4: string, s6: string, s8: string)
  {
    && s8 == "2" + ['!']
    && s6 == "phase" + ([' '] + s8)
    && s4 == "noor" + ([' '] + s6)
    && s2 == "al" + ([' '] + s4)
    && s0 == "villa" + ([' '] + s2)
  }

  lemma ExampleWords(s0: string, s2: string, s4: string, s6: string, s8: string)
    requires ExampleSplit(s0, s2, s4, s6, s8)
    ensures Hyphenate(s0) == "villa-al-noor-phase-2-"
  {
    HyphenateJoin("2", '!', []);
    assert s8 == "2" + (['!'] + []);
    assert Hyphenate(s8) == "2" + "-";
    HyphenateJoin("phase", ' ', s8);
    HyphenateJoin("noor", ' ', s6);
    HyphenateJoin("al", ' ', s4);
    HyphenateJoin("villa", ' ', s2);
    ExampleJoined();
  }

  lemma ExampleJoined()
    ensures "villa" + ("-" + ("al" + ("-" + ("noor" + ("-" + ("phase" + ("-" + ("2" + "-"))))))))
      == "villa-al-noor-phase-2-"
  {
  }

  lemma ExampleLowered(s0: string, s2: string, s4: string, s6: string, s8: string)
    requires ExampleSplit(s0, s2, s4, s6, s8)
    ensures LowerAscii("Villa Al Noor Phase 2!") == s0
  {
  }
}
