/**
  `District.slugify`: the URL slug of a district name, made in three steps in
  this order: delete every character other than a word character, whitespace
  or a hyphen; replace each run of whitespace by one hyphen; lowercase.
 */
module Slugs {
  import opened Text

  /** The characters step 1 keeps. */
  predicate IsKept(c: char)
  {
    IsWordChar(c) || IsSpace(c) || c == '-'
  }

  /** The characters a slug is made of. */
  predicate IsSlugChar(c: char)
  {
    'a' <= c <= 'z' || '0' <= c <= '9' || c == '_' || c == '-'
  }

  predicate AllSlugChars(s: string)
  {
    forall i :: 0 <= i < |s| ==> IsSlugChar(s[i])
  }

  /** The word characters of s, in order: what no step of slugify deletes. */
  function WordChars(s: string): string
  {
    if s == [] then [] else (if IsWordChar(s[0]) then [s[0]] else []) + WordChars(s[1..])
  }

  /** Step 1: delete every character that is not a word character, whitespace or a hyphen. */
  function StripPunctuation(s: string): (r: string)
    ensures |r| <= |s|
    ensures forall i :: 0 <= i < |r| ==> IsKept(r[i])
  {
    if s == [] then [] else (if IsKept(s[0]) then [s[0]] else []) + StripPunctuation(s[1..])
  }

  /** Step 2: replace each maximal run of whitespace by a single hyphen. */
  function CollapseSpaces(s: string): (r: string)
    ensures |r| <= |s|
    ensures NoSpace(r)
    decreases |s|
  {
    if s == [] then []
    else if IsSpace(s[0]) then "-" + CollapseSpaces(DropSpaces(s[1..]))
    else [s[0]] + CollapseSpaces(s[1..])
  }

  /** ASCII lowercase of one character; nothing else but A-Z can reach step 3. */
  function LowerChar(c: char): (r: char)
    ensures !('A' <= r <= 'Z')
    ensures IsWordChar(r) == IsWordChar(c) && (r == '-' <==> c == '-')
  {
    if 'A' <= c <= 'Z' then (c as int - 'A' as int + 'a' as int) as char else c
  }

  /** Step 3: lowercase. */
  function Lowercase(s: string): (r: string)
    ensures |r| == |s|
    ensures forall i :: 0 <= i < |s| ==> r[i] == LowerChar(s[i])
  {
    if s == [] then [] else [LowerChar(s[0])] + Lowercase(s[1..])
  }

  /** The slug of a district name. */
  function Slugify(name: string): (slug: string)
    ensures |slug| <= |name|
  {
    Lowercase(CollapseSpaces(StripPunctuation(name)))
  }

  /** A slug holds only a-z, 0-9, `_` and `-`; in particular no whitespace. */
  lemma SlugifyChars(name: string)
    ensures AllSlugChars(Slugify(name))
    ensures NoSpace(Slugify(name))
  {
    CollapseOfKept(StripPunctuation(name));
  }

  /** Collapsing a stripped string leaves only word characters and hyphens. */
  lemma {:induction false} CollapseOfKept(s: string)
    requires forall i :: 0 <= i < |s| ==> IsKept(s[i])
    ensures forall i :: 0 <= i < |CollapseSpaces(s)| ==>
      IsWordChar(CollapseSpaces(s)[i]) || CollapseSpaces(s)[i] == '-'
    decreases |s|
  {
    if s != [] {
      if IsSpace(s[0]) {
        var rest := DropSpaces(s[1..]);
        DropSpacesSplits(s[1..]);
        assert rest == s[|s| - |rest|..];
        CollapseOfKept(rest);
      } else {
        CollapseOfKept(s[1..]);
      }
    }
  }

  // ----- Each step leaves a slug alone -----

  lemma {:induction false} StripKeepsKept(s: string)
    requires forall i :: 0 <= i < |s| ==> IsKept(s[i])
    ensures StripPunctuation(s) == s
  {
    if s != [] {
      StripKeepsKept(s[1..]);
    }
  }

  lemma {:induction false} CollapseKeepsSpaceless(s: string)
    requires NoSpace(s)
    ensures CollapseSpaces(s) == s
  {
    if s != [] {
      CollapseKeepsSpaceless(s[1..]);
    }
  }

  lemma {:induction false} LowercaseKeepsLower(s: string)
    requires forall i :: 0 <= i < |s| ==> !('A' <= s[i] <= 'Z')
    ensures Lowercase(s) == s
  {
    if s != [] {
      LowercaseKeepsLower(s[1..]);
    }
  }

  /** Slugifying a slug changes nothing. */
  lemma SlugifyIdempotent(name: string)
    ensures Slugify(Slugify(name)) == Slugify(name)
  {
    var slug := Slugify(name);
    SlugifyChars(name);
    StripKeepsKept(slug);
    CollapseKeepsSpaceless(slug);
    LowercaseKeepsLower(slug);
  }

  // ----- Word characters survive every step, in order -----

  lemma {:induction false} WordCharsAppend(a: string, b: string)
    ensures WordChars(a + b) == WordChars(a) + WordChars(b)
  {
    if a == [] {
      assert a + b == b;
    } else {
      var head := if IsWordChar(a[0]) then [a[0]] else [];
      assert (a + b)[0] == a[0] && (a + b)[1..] == a[1..] + b;
      WordCharsCons(a + b);
      WordCharsCons(a);
      WordCharsAppend(a[1..], b);
      assert head + (WordChars(a[1..]) + WordChars(b)) == (head + WordChars(a[1..])) + WordChars(b);
    }
  }

  lemma {:induction false} WordCharsOfStrip(s: string)
    ensures WordChars(StripPunctuation(s)) == WordChars(s)
  {
    if s != [] {
      var head := if IsKept(s[0]) then [s[0]] else [];
      WordCharsAppend(head, StripPunctuation(s[1..]));
      WordCharsOfStrip(s[1..]);
    }
  }

  lemma {:induction false} WordCharsOfDropSpaces(s: string)
    ensures WordChars(DropSpaces(s)) == WordChars(s)
  {
    if s != [] && IsSpace(s[0]) {
      WordCharsOfDropSpaces(s[1..]);
    }
  }

  lemma WordCharsCons(s: string)
    requires s != []
    ensures WordChars(s) == (if IsWordChar(s[0]) then [s[0]] else []) + WordChars(s[1..])
  {
  }

  lemma {:induction false} WordCharsOfCollapse(s: string)
    ensures WordChars(CollapseSpaces(s)) == WordChars(s)
    decreases |s|
  {
    if s != [] {
      WordCharsCons(s);
      if IsSpace(s[0]) {
        var rest := DropSpaces(s[1..]);
        assert WordChars("-") == [] by { WordCharsCons("-"); }
        WordCharsAppend("-", CollapseSpaces(rest));
        WordCharsOfCollapse(rest);
        WordCharsOfDropSpaces(s[1..]);
      } else {
        var head := if IsWordChar(s[0]) then [s[0]] else [];
        assert WordChars([s[0]]) == head by { WordCharsCons([s[0]]); assert [s[0]][1..] == []; }
        WordCharsAppend([s[0]], CollapseSpaces(s[1..]));
        WordCharsOfCollapse(s[1..]);
      }
    }
  }

  lemma {:induction false} WordCharsOfLowercase(s: string)
    ensures WordChars(Lowercase(s)) == Lowercase(WordChars(s))
  {
    if s != [] {
      assert IsWordChar(LowerChar(s[0])) == IsWordChar(s[0]);
      assert Lowercase(s) == [LowerChar(s[0])] + Lowercase(s[1..]);
      WordCharsAppend([LowerChar(s[0])], Lowercase(s[1..]));
      WordCharsOfLowercase(s[1..]);
      var head := if IsWordChar(s[0]) then [s[0]] else [];
      LowercaseAppend(head, WordChars(s[1..]));
    }
  }

  lemma {:induction false} LowercaseAppend(a: string, b: string)
    ensures Lowercase(a + b) == Lowercase(a) + Lowercase(b)
  {
    if a == [] {
      assert a + b == b;
    } else {
      assert (a + b)[0] == a[0] && (a + b)[1..] == a[1..] + b;
      LowercaseAppend(a[1..], b);
    }
  }

  /** The slug holds exactly the name's word characters, in order and lowercased, plus hyphens. */
  lemma SlugifyKeepsWordChars(name: string)
    ensures WordChars(Slugify(name)) == Lowercase(WordChars(name))
  {
    var stripped := StripPunctuation(name);
    WordCharsOfStrip(name);
    WordCharsOfCollapse(stripped);
    WordCharsOfLowercase(CollapseSpaces(stripped));
  }

  // ----- Examples -----

  lemma {:induction false} StripAppend(a: string, b: string)
    ensures StripPunctuation(a + b) == StripPunctuation(a) + StripPunctuation(b)
  {
    if a == [] {
      assert a + b == b;
    } else {
      assert (a + b)[0] == a[0] && (a + b)[1..] == a[1..] + b;
      StripAppend(a[1..], b);
    }
  }

  lemma {:induction false} DropSpacesOfBlankPrefix(gap: string, b: string)
    requires AllSpace(gap) && (b == [] || !IsSpace(b[0]))
    ensures DropSpaces(gap + b) == b
  {
    if gap == [] {
      assert gap + b == b;
    } else {
      assert (gap + b)[0] == gap[0] && (gap + b)[1..] == gap[1..] + b;
      DropSpacesOfBlankPrefix(gap[1..], b);
    }
  }

  /**
    A word, a run of whitespace and then anything that does not start with
    whitespace: the word is kept and the run becomes one hyphen.
   */
  lemma {:induction false} CollapseGapThen(a: string, gap: string, rest: string)
    requires NoSpace(a) && gap != [] && AllSpace(gap) && (rest == [] || !IsSpace(rest[0]))
    ensures CollapseSpaces(a + gap + rest) == a + "-" + CollapseSpaces(rest)
  {
    if a == [] {
      assert a + gap + rest == gap + rest && a + "-" + CollapseSpaces(rest) == "-" + CollapseSpaces(rest);
      assert (gap + rest)[1..] == gap[1..] + rest;
      DropSpacesOfBlankPrefix(gap[1..], rest);
    } else {
      assert (a + gap + rest)[0] == a[0] && (a + gap + rest)[1..] == a[1..] + gap + rest;
      CollapseGapThen(a[1..], gap, rest);
      assert a + "-" + CollapseSpaces(rest) == [a[0]] + (a[1..] + "-" + CollapseSpaces(rest));
    }
  }

  /** Two words with a run of whitespace between them collapse to the words joined by one hyphen. */
  lemma CollapseGap(a: string, gap: string, b: string)
    requires NoSpace(a) && gap != [] && AllSpace(gap) && NoSpace(b)
    ensures CollapseSpaces(a + gap + b) == a + "-" + b
  {
    CollapseGapThen(a, gap, b);
    CollapseKeepsSpaceless(b);
  }

  /** Deleting one punctuation character between two stretches of kept characters. */
  lemma StripOneBetween(x: string, c: char, y: string)
    requires !IsKept(c)
    requires forall i :: 0 <= i < |x| ==> IsKept(x[i])
    requires forall i :: 0 <= i < |y| ==> IsKept(y[i])
    ensures StripPunctuation(x + [c] + y) == x + y
  {
    StripAppend(x + [c], y);
    StripAppend(x, [c]);
    StripKeepsKept(x);
    StripKeepsKept(y);
    assert StripPunctuation([c]) == [] by {
      assert [c][1..] == [];
    }
    assert x + [] == x;
  }

  /** Lowercasing two words joined by a hyphen lowercases each word. */
  lemma LowercaseJoin(x: string, y: string, lx: string, ly: string)
    requires Lowercase(x) == lx && Lowercase(y) == ly
    ensures Lowercase(x + "-" + y) == lx + "-" + ly
  {
    LowercaseAppend(x + "-", y);
    LowercaseAppend(x, "-");
    LowercaseKeepsLower("-");
  }

  /** Lowercasing a capitalised word lowers its first letter only. */
  lemma LowercaseCapitalised(c: char, rest: string)
    requires forall i :: 0 <= i < |rest| ==> !('A' <= rest[i] <= 'Z')
    ensures Lowercase([c] + rest) == [LowerChar(c)] + rest
  {
    LowercaseAppend([c], rest);
    LowercaseKeepsLower(rest);
    assert Lowercase([c]) == [LowerChar(c)] by {
      assert [c][1..] == [];
    }
  }

  /** Whether w is a word whose only capital, if any, is its first letter. */
  predicate IsCapitalisedWord(w: string)
  {
    w != [] && forall i :: 1 <= i < |w| ==> !('A' <= w[i] <= 'Z')
  }

  /** Two capitalised words joined by a hyphen lowercase to their first letters lowered. */
  lemma LowercaseCapitalisedPair(x: string, y: string, lx: string, ly: string)
    requires IsCapitalisedWord(x) && lx == [LowerChar(x[0])] + x[1..]
    requires IsCapitalisedWord(y) && ly == [LowerChar(y[0])] + y[1..]
    ensures Lowercase(x + "-" + y) == lx + "-" + ly
  {
    assert x == [x[0]] + x[1..];
    LowercaseCapitalised(x[0], x[1..]);
    assert y == [y[0]] + y[1..];
    LowercaseCapitalised(y[0], y[1..]);
    LowercaseJoin(x, y, lx, ly);
  }

  /**
    Two capitalised words separated by whitespace around one punctuation
    character: the character goes, the whitespace becomes one hyphen and the
    first letters go down.
   */
  lemma SlugifyPunctuatedPair(x: string, gapL: string, c: char, gapR: string, y: string, lx: string, ly: string)
    requires IsCapitalisedWord(x) && forall i :: 0 <= i < |x| ==> IsWordChar(x[i])
    requires IsCapitalisedWord(y) && forall i :: 0 <= i < |y| ==> IsWordChar(y[i])
    requires AllSpace(gapL) && AllSpace(gapR) && gapL + gapR != [] && !IsKept(c)
    requires lx == [LowerChar(x[0])] + x[1..] && ly == [LowerChar(y[0])] + y[1..]
    ensures Slugify(x + gapL + [c] + gapR + y) == lx + "-" + ly
  {
    var left, right := x + gapL, gapR + y;
    assert forall i :: 0 <= i < |left| ==> IsKept(left[i]) by {
      assert forall i :: 0 <= i < |left| ==> left[i] == if i < |x| then x[i] else gapL[i - |x|];
    }
    assert forall i :: 0 <= i < |right| ==> IsKept(right[i]) by {
      assert forall i :: 0 <= i < |right| ==> right[i] == if i < |gapR| then gapR[i] else y[i - |gapR|];
    }
    StripOneBetween(left, c, right);
    assert x + gapL + [c] + gapR + y == left + [c] + right;
    var gap := gapL + gapR;
    assert AllSpace(gap) by {
      assert forall i :: 0 <= i < |gap| ==> gap[i] == if i < |gapL| then gapL[i] else gapR[i - |gapL|];
    }
    assert left + right == x + gap + y;
    CollapseGap(x, gap, y);
    LowercaseCapitalisedPair(x, y, lx, ly);
  }

  /** A letters-only word whose only capital is its first letter, and its lowercase form. */
  lemma PlainCapitalisedWord(w: string, lower: string)
    requires w != [] && 'A' <= w[0] <= 'Z' && forall i :: 1 <= i < |w| ==> 'a' <= w[i] <= 'z'
    requires |lower| == |w| && lower[0] == LowerChar(w[0]) && lower[1..] == w[1..]
    ensures IsCapitalisedWord(w) && forall i :: 0 <= i < |w| ==> IsWordChar(w[i])
    ensures lower == [LowerChar(w[0])] + w[1..]
  {
  }

  /** Deleting `&` leaves two spaces, which become one hyphen. */
  lemma SlugifyAshford(name: string)
    requires name == "Ashford & District"
    ensures Slugify(name) == "ashford-district"
  {
    var x, y, lx, ly := "Ashford", "District", "ashford", "district";
    assert Slugify(name) == lx + "-" + ly by {
      assert name == x + " " + ['&'] + " " + y;
      PlainCapitalisedWord(x, lx);
      PlainCapitalisedWord(y, ly);
      SlugifyPunctuatedPair(x, " ", '&', " ", y, lx, ly);
    }
    assert lx + "-" + ly == "ashford-district";
  }

  /** Punctuation goes, the space becomes a hyphen, capitals go down. */
  lemma SlugifyStIves(name: string)
    requires name == "St. Ives"
    ensures Slugify(name) == "st-ives"
  {
    var x, y, lx, ly := "St", "Ives", "st", "ives";
    assert Slugify(name) == lx + "-" + ly by {
      assert name == x + "" + ['.'] + " " + y;
      PlainCapitalisedWord(x, lx);
      PlainCapitalisedWord(y, ly);
      SlugifyPunctuatedPair(x, "", '.', " ", y, lx, ly);
    }
    assert lx + "-" + ly == "st-ives";
  }

  /** Hyphens of the name are kept, so runs of hyphens are not collapsed. */
  lemma SlugifyKeepsHyphenRuns(name: string)
    requires name == "a - b"
    ensures Slugify(name) == "a---b"
  {
    var x, y, dash, space := "a", "b", "-", " ";
    var tail := dash + space + y;
    assert name == x + space + tail;
    StripKeepsKept(name);
    CollapseGapThen(x, space, tail);
    CollapseGap(dash, space, y);
    var slug := x + "-" + (dash + "-" + y);
    assert slug == "a---b";
    LowercaseKeepsLower(slug);
  }
}
