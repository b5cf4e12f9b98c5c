/**
 The edge-case and validation test: its text normaliser, its numeric helpers,
 the order in which it tries to accept an observed output (substring match of
 normalised text, numeric equality, the empty-output exemption) and the flow
 that drives the page for one row of the edge-case table.
 */
module EdgeCases {
  import opened Common
  import opened Text
  import opened CalculatorPage

  // ---------------------------------------------------------------------------
  // Normalisation

  /** The punctuation `_normalize` removes (`[!.,]`). */
  predicate IsDroppedPunctuation(c: char) {
    c == '!' || c == '.' || c == ','
  }

  /**
   `s.replace("zero", "0")`: scanning from the left, every occurrence of
   `zero` that does not overlap one already replaced becomes `0`.
   */
  function ReplaceZero(s: string): string
    decreases |s|
  {
    if IsPrefix("zero", s) then "0" + ReplaceZero(s[4..])
    else if s == [] then []
    else [s[0]] + ReplaceZero(s[1..])
  }

  /** The replacement introduces no character but `0`. */
  lemma {:induction false} ReplaceZeroChars(s: string)
    ensures forall c :: c in ReplaceZero(s) ==> c == '0' || c in s
    decreases |s|
  {
    if IsPrefix("zero", s) {
      ReplaceZeroChars(s[4..]);
      assert forall c :: c in s[4..] ==> c in s;
    } else if s != [] {
      ReplaceZeroChars(s[1..]);
      assert forall c :: c in s[1..] ==> c in s;
    }
  }

  /** A character of `ReplaceZero(s)` other than `0` at its head was copied
      from the head of `s`, which does not start an occurrence of `zero`. */
  lemma ReplaceZeroHead(s: string)
    requires ReplaceZero(s) != [] && ReplaceZero(s)[0] != '0'
    ensures s != [] && !IsPrefix("zero", s)
    ensures ReplaceZero(s) == [s[0]] + ReplaceZero(s[1..])
  {
  }

  /** No occurrence of `zero` survives the replacement, not even one formed
      across the boundary of a replaced occurrence. */
  lemma {:induction false} ReplaceZeroLeavesNoZero(s: string)
    ensures !Contains(ReplaceZero(s), "zero")
    decreases |s|
  {
    var r := ReplaceZero(s);
    if IsPrefix("zero", s) {
      ReplaceZeroLeavesNoZero(s[4..]);
      assert r[1..] == ReplaceZero(s[4..]);
    } else if s != [] {
      var rest := ReplaceZero(s[1..]);
      ReplaceZeroLeavesNoZero(s[1..]);
      assert r[1..] == rest;
      if IsPrefix("zero", r) {
        ReplaceZeroHead(s[1..]);
        ReplaceZeroHead(s[2..]);
        assert false;
      }
    }
  }

  /** A string without `zero` is left as it is. */
  lemma {:induction false} ReplaceZeroKeepsZeroFree(s: string)
    requires !Contains(s, "zero")
    ensures ReplaceZero(s) == s
    decreases |s|
  {
    if s != [] {
      ReplaceZeroKeepsZeroFree(s[1..]);
    }
  }

  /** The first occurrence of `zero` becomes `0`, the text before it is kept
      and the replacement continues after it. With `ReplaceZeroKeepsZeroFree`
      this fixes the result on every input. */
  lemma {:induction false} ReplaceZeroFirst(a: string, b: string)
    requires !Contains(a + "zer", "zero")
    ensures ReplaceZero(a + "zero" + b) == a + "0" + ReplaceZero(b)
    decreases |a|
  {
    var s := a + "zero" + b;
    if a == [] {
      assert s == "zero" + b && s[4..] == b;
    } else {
      assert s[..4] == (a + "zer")[..4];
      assert !IsPrefix("zero", s);
      assert (a + "zer")[1..] == a[1..] + "zer";
      assert s[1..] == a[1..] + "zero" + b;
      ReplaceZeroFirst(a[1..], b);
      assert a == [a[0]] + a[1..];
    }
  }

  /** Left-to-right, non-overlapping replacement on concrete inputs. */
  lemma ReplaceZeroExamples()
    ensures ReplaceZero("zerozero") == "00"
    ensures ReplaceZero("zzero") == "z0"
    ensures ReplaceZero("zezeroro") == "ze0ro"
  {
    ReplaceZeroTwice();
    ReplaceZeroAfterZ();
    ReplaceZeroInside();
  }

  lemma ReplaceZeroTwice()
    ensures ReplaceZero("zerozero") == "00"
  {
    assert IsPrefix("zero", "zerozero");
    assert "zerozero"[4..] == "zero";
    assert IsPrefix("zero", "zero");
    assert "zero"[4..] == [];
  }

  lemma ReplaceZeroAfterZ()
    ensures ReplaceZero("zzero") == "z0"
  {
    assert "zzero"[1] != "zero"[1];
    assert !IsPrefix("zero", "zzero");
    assert "zzero"[1..] == "zero";
    assert IsPrefix("zero", "zero");
    assert "zero"[4..] == [];
  }

  lemma ReplaceZeroInside()
    ensures ReplaceZero("zezeroro") == "ze0ro"
  {
    assert ReplaceZero("ro") == "ro" by {
      NoZeroWithoutZ("ro");
      ReplaceZeroKeepsZeroFree("ro");
    }
    assert ReplaceZero("zeroro") == "0ro" by {
      assert IsPrefix("zero", "zeroro");
      assert "zeroro"[4..] == "ro";
    }
    assert ReplaceZero("ezeroro") == "e0ro" by {
      assert "ezeroro"[0] != "zero"[0];
      assert !IsPrefix("zero", "ezeroro");
      assert "ezeroro"[1..] == "zeroro";
    }
    assert "zezeroro"[2] != "zero"[2];
    assert !IsPrefix("zero", "zezeroro");
    assert "zezeroro"[1..] == "ezeroro";
  }

  /** `re.sub(r"[!.,]", "", s)`: `s` without its `!`, `.` and `,`, every
      other character kept. */
  function DropPunctuation(s: string): string
    decreases |s|
  {
    if s == [] then []
    else if IsDroppedPunctuation(s[0]) then DropPunctuation(s[1..])
    else [s[0]] + DropPunctuation(s[1..])
  }

  /** Exactly the characters of `s` other than `!`, `.` and `,` remain. */
  lemma {:induction false} DropPunctuationChars(s: string)
    ensures forall c :: c in DropPunctuation(s) ==> c in s && !IsDroppedPunctuation(c)
    ensures forall c :: c in s && !IsDroppedPunctuation(c) ==> c in DropPunctuation(s)
    decreases |s|
  {
    if s != [] {
      DropPunctuationChars(s[1..]);
      assert forall c :: c in s <==> c == s[0] || c in s[1..];
    }
  }

  /** Punctuation is dropped piecewise. */
  lemma {:induction false} DropPunctuationAppend(a: string, b: string)
    ensures DropPunctuation(a + b) == DropPunctuation(a) + DropPunctuation(b)
    decreases |a|
  {
    if a == [] {
      assert a + b == b;
    } else {
      assert (a + b)[0] == a[0] && (a + b)[1..] == a[1..] + b;
      DropPunctuationAppend(a[1..], b);
    }
  }

  /** Whitespace in `s` is only the plain space. */
  predicate OnlyPlainSpaces(s: string) {
    forall c :: c in s && IsSpace(c) ==> c == ' '
  }

  /** No two spaces in a row. */
  predicate SingleSpaced(s: string) {
    forall i :: 0 <= i < |s| - 1 ==> s[i] != ' ' || s[i + 1] != ' '
  }

  /**
   `re.sub(r"\s+", " ", s)` from a point where the previous character was
   whitespace (`inRun`) or not: each maximal run of whitespace becomes one
   space. The result keeps the other characters, has no two spaces in a row,
   does not start with a space when a run was already open, and is empty only
   when there was nothing to rewrite.
   */
  function CollapseFrom(s: string, inRun: bool): string
    decreases |s|
  {
    if s == [] then []
    else if IsSpace(s[0]) then
      var rest := CollapseFrom(s[1..], true);
      if inRun then rest else " " + rest
    else [s[0]] + CollapseFrom(s[1..], false)
  }

  lemma {:induction false} CollapseFromChars(s: string, inRun: bool)
    ensures var r := CollapseFrom(s, inRun);
      && (forall c :: c in r ==> c == ' ' || (c in s && !IsSpace(c)))
      && SingleSpaced(r)
      && (inRun && r != [] ==> r[0] != ' ')
      && (!inRun ==> (r == [] <==> s == []))
    decreases |s|
  {
    if s != [] {
      CollapseFromChars(s[1..], IsSpace(s[0]));
      assert forall c :: c in s[1..] ==> c in s;
    }
  }

  /** `re.sub(r"\s+", " ", s)`. */
  function CollapseWhitespace(s: string): string {
    CollapseFrom(s, false)
  }

  /** The characters of `s` that are not whitespace, in order. */
  function NonSpace(s: string): string
    decreases |s|
  {
    if s == [] then []
    else if IsSpace(s[0]) then NonSpace(s[1..])
    else [s[0]] + NonSpace(s[1..])
  }

  /** Collapsing rewrites whitespace only: the other characters come out
      unchanged and in their original order. */
  lemma {:induction false} CollapseFromKeepsNonSpace(s: string, inRun: bool)
    ensures NonSpace(CollapseFrom(s, inRun)) == NonSpace(s)
    decreases |s|
  {
    if s != [] {
      var rest := CollapseFrom(s[1..], IsSpace(s[0]));
      CollapseFromKeepsNonSpace(s[1..], IsSpace(s[0]));
      if !IsSpace(s[0]) {
        assert ([s[0]] + rest)[1..] == rest;
      } else if !inRun {
        assert (" " + rest)[1..] == rest;
      }
    }
  }

  /** The shape of the result: the non-whitespace characters are kept in
      order, only plain spaces remain, never two in a row, and only empty text
      collapses to the empty string. That each run becomes exactly one space
      is `CollapseRunThen`. */
  lemma CollapseWhitespaceNormalForm(s: string)
    ensures var r := CollapseWhitespace(s);
      && NonSpace(r) == NonSpace(s)
      && (forall c :: c in r ==> c == ' ' || (c in s && !IsSpace(c)))
      && OnlyPlainSpaces(r) && SingleSpaced(r)
      && (r == [] <==> s == [])
  {
    CollapseFromChars(s, false);
    CollapseFromKeepsNonSpace(s, false);
  }

  /** Text without whitespace goes through unchanged, whether or not a run was
      open before it. */
  lemma {:induction false} CollapseFromNoSpace(a: string, rest: string, inRun: bool)
    requires forall c :: c in a ==> !IsSpace(c)
    requires a != [] || !inRun
    ensures CollapseFrom(a + rest, inRun) == a + CollapseFrom(rest, false)
    decreases |a|
  {
    if a != [] {
      assert (a + rest)[0] == a[0] && (a + rest)[1..] == a[1..] + rest;
      assert a[0] in a;
      assert forall c :: c in a[1..] ==> c in a;
      CollapseFromNoSpace(a[1..], rest, false);
      assert a == [a[0]] + a[1..];
    } else {
      assert a + rest == rest;
    }
  }

  /** A whitespace run is absorbed into a run already open. */
  lemma {:induction false} CollapseFromRun(w: string, rest: string)
    requires forall c :: c in w ==> IsSpace(c)
    ensures CollapseFrom(w + rest, true) == CollapseFrom(rest, true)
    decreases |w|
  {
    if w != [] {
      assert (w + rest)[0] == w[0] && (w + rest)[1..] == w[1..] + rest;
      assert w[0] in w;
      assert forall c :: c in w[1..] ==> c in w;
      CollapseFromRun(w[1..], rest);
    } else {
      assert w + rest == rest;
    }
  }

  /** A whitespace run between two words becomes exactly one plain space. */
  lemma CollapseRunBetween(a: string, w: string, b: string)
    requires forall c :: c in a + b ==> !IsSpace(c)
    requires w != [] && forall c :: c in w ==> IsSpace(c)
    ensures CollapseWhitespace(a + w + b) == a + " " + b
  {
    assert forall c :: c in a ==> c in a + b;
    assert forall c :: c in b ==> c in a + b;
    assert a + w + b == a + (w + b);
    CollapseFromNoSpace(a, w + b, false);
    assert (w + b)[0] == w[0] && (w + b)[1..] == w[1..] + b;
    assert w[0] in w;
    assert forall c :: c in w[1..] ==> c in w;
    CollapseFromRun(w[1..], b);
    if b != [] {
      CollapseFromNoSpace(b, [], true);
      CollapseFromNoSpace(b, [], false);
      assert b + [] == b;
    }
  }

  /** A leading whitespace run becomes one plain space and the rest is
      collapsed on its own. With `CollapseFromNoSpace` for text without
      whitespace, this determines the rewrite on every input, one run at a
      time. */
  lemma CollapseRunThen(a: string, w: string, b: string)
    requires forall c :: c in a ==> !IsSpace(c)
    requires w != [] && forall c :: c in w ==> IsSpace(c)
    requires b == [] || !IsSpace(b[0])
    ensures CollapseWhitespace(a + w + b) == a + " " + CollapseWhitespace(b)
  {
    assert a + w + b == a + (w + b);
    CollapseFromNoSpace(a, w + b, false);
    assert (w + b)[0] == w[0] && (w + b)[1..] == w[1..] + b;
    assert w[0] in w;
    assert forall c :: c in w[1..] ==> c in w;
    CollapseFromRun(w[1..], b);
    if b != [] {
      assert b == [b[0]] + b[1..];
    }
  }

  /** Text already in collapsed form is a fixed point of the rewrite. */
  lemma {:induction false} CollapseFromKeepsNormalForm(s: string, inRun: bool)
    requires OnlyPlainSpaces(s) && SingleSpaced(s)
    requires inRun ==> s == [] || s[0] != ' '
    ensures CollapseFrom(s, inRun) == s
    decreases |s|
  {
    if s != [] {
      var t := s[1..];
      NormalFormTail(s);
      assert s[0] in s;
      if IsSpace(s[0]) {
        assert s[0] == ' ' && !inRun;
        assert |s| > 1 ==> s[1] != ' ';
        assert t == [] || t[0] != ' ';
        CollapseFromKeepsNormalForm(t, true);
        assert CollapseFrom(s, inRun) == " " + t;
      } else {
        CollapseFromKeepsNormalForm(t, false);
        assert CollapseFrom(s, inRun) == [s[0]] + t;
      }
    }
  }

  /** The collapsed form is closed under dropping the first character. */
  lemma NormalFormTail(s: string)
    requires s != [] && OnlyPlainSpaces(s) && SingleSpaced(s)
    ensures OnlyPlainSpaces(s[1..]) && SingleSpaced(s[1..])
  {
    assert forall c :: c in s[1..] ==> c in s;
    forall i | 0 <= i < |s| - 2
      ensures s[1..][i] != ' ' || s[1..][i + 1] != ' '
    {
      assert s[i + 1] != ' ' || s[i + 2] != ' ';
    }
  }

  /**
   `_normalize(text)`: lower-case, strip, replace `zero` by `0`, drop `!`,
   `.` and `,`, collapse whitespace runs to one space, in that order.
   */
  function Normalize(text: string): string {
    CollapseWhitespace(DropPunctuation(ReplaceZero(Strip(Lower(text)))))
  }

  /** The normal form has no upper-case letter, none of the dropped
      punctuation, no whitespace but the plain space, and never two spaces in
      a row. */
  lemma NormalizeNormalForm(text: string)
    ensures var r := Normalize(text);
      && NoUpper(r)
      && (forall c :: c in r ==> !IsDroppedPunctuation(c))
      && OnlyPlainSpaces(r)
      && SingleSpaced(r)
  {
    var trimmed := Strip(Lower(text));
    StripChars(Lower(text));
    var replaced := ReplaceZero(trimmed);
    ReplaceZeroChars(trimmed);
    var unpunctuated := DropPunctuation(replaced);
    DropPunctuationChars(replaced);
    CollapseWhitespaceNormalForm(unpunctuated);
  }

  /** Text that is lower-case, stripped, spaced with single plain spaces and
      free of `!`, `.`, `,` and `zero` is a fixed point of `_normalize`. */
  lemma NormalizeKeepsNormalForm(s: string)
    requires NoUpper(s) && OnlyPlainSpaces(s) && SingleSpaced(s)
    requires forall c :: c in s ==> !IsDroppedPunctuation(c)
    requires !Contains(s, "zero")
    requires s == [] || (!IsSpace(s[0]) && !IsSpace(s[|s| - 1]))
    ensures Normalize(s) == s
  {
    LowerKeepsLowerCase(s);
    StripKeepsStripped(s);
    ReplaceZeroKeepsZeroFree(s);
    DropPunctuationKeeps(s);
    CollapseFromKeepsNormalForm(s, false);
  }

  lemma {:induction false} DropPunctuationKeeps(s: string)
    requires forall c :: c in s ==> !IsDroppedPunctuation(c)
    ensures DropPunctuation(s) == s
    decreases |s|
  {
    if s != [] {
      assert s[0] in s;
      assert forall c :: c in s[1..] ==> c in s;
      DropPunctuationKeeps(s[1..]);
    }
  }

  /** A text without `z` contains no `zero`. */
  lemma {:induction false} NoZeroWithoutZ(s: string)
    requires 'z' !in s
    ensures !Contains(s, "zero")
    decreases |s|
  {
    if s != [] {
      assert forall c :: c in s[1..] ==> c in s;
      NoZeroWithoutZ(s[1..]);
      assert s[0] in s;
    }
  }

  /** Surrounding whitespace never affects the normal form. */
  lemma NormalizeIgnoresSurroundingSpace(s: string)
    ensures Normalize(Strip(s)) == Normalize(s)
  {
    LowerStripCommute(s);
    LowerStripCommute(Strip(s));
    StripIdempotent(s);
    StripIdempotent(Lower(s));
  }

  /** Every character of `ReplaceZero(s)` is dropped punctuation only when
      every character of `s` is: a replaced `zero` leaves a `0` behind. */
  lemma {:induction false} ReplaceZeroAllPunctuation(s: string)
    ensures (forall c :: c in ReplaceZero(s) ==> IsDroppedPunctuation(c))
      <==> (forall c :: c in s ==> IsDroppedPunctuation(c))
    decreases |s|
  {
    var r := ReplaceZero(s);
    if IsPrefix("zero", s) {
      assert r[0] == '0' && s[0] == 'z';
      assert s[0] in s && r[0] in r;
    } else if s != [] {
      ReplaceZeroAllPunctuation(s[1..]);
      assert r == [s[0]] + ReplaceZero(s[1..]);
      assert forall c :: c in s <==> c == s[0] || c in s[1..];
      assert forall c :: c in r <==> c == s[0] || c in ReplaceZero(s[1..]);
    }
  }

  /** Lower-casing neither creates nor removes dropped punctuation. */
  lemma LowerAllPunctuation(s: string)
    ensures (forall c :: c in Lower(s) ==> IsDroppedPunctuation(c))
      <==> (forall c :: c in s ==> IsDroppedPunctuation(c))
  {
    var l := Lower(s);
    if forall c :: c in l ==> IsDroppedPunctuation(c) {
      forall c | c in s
        ensures IsDroppedPunctuation(c)
      {
        var i :| 0 <= i < |s| && s[i] == c;
        assert l[i] in l;
      }
    }
    if forall c :: c in s ==> IsDroppedPunctuation(c) {
      forall c | c in l
        ensures IsDroppedPunctuation(c)
      {
        var i :| 0 <= i < |l| && l[i] == c;
        assert s[i] in s;
      }
    }
  }

  /**
   The output `_normalize` maps to the empty string is exactly the output
   that, once stripped, consists of `!`, `.` and `,` alone (blank output
   included). A stripped output such as `! !` keeps its inner space and so
   normalises to a non-empty string.
   */
  lemma NormalizeEmptyIff(text: string)
    ensures Normalize(text) == "" <==> forall c :: c in Strip(text) ==> IsDroppedPunctuation(c)
  {
    var trimmed := Strip(Lower(text));
    LowerStripCommute(text);
    LowerAllPunctuation(Strip(text));
    ReplaceZeroAllPunctuation(trimmed);
    var replaced := ReplaceZero(trimmed);
    var unpunctuated := DropPunctuation(replaced);
    DropPunctuationChars(replaced);
    CollapseWhitespaceNormalForm(unpunctuated);
    assert Normalize(text) == CollapseWhitespace(unpunctuated);
    if unpunctuated == [] {
      assert forall c :: c in replaced ==> IsDroppedPunctuation(c);
    } else {
      assert unpunctuated[0] in unpunctuated;
    }
  }

  // ---------------------------------------------------------------------------
  // Worked examples: `_normalize` is not idempotent

  /** `_normalize` is not idempotent: stripping runs before punctuation is
      dropped, so a space left in front of a dropped `!` survives one pass but
      not the next. */
  lemma NormalizeNotIdempotentTrailingSpace()
    ensures Normalize("a !") == "a "
    ensures Normalize(Normalize("a !")) == "a"
  {
    NormalizeSpaceBang();
    NormalizeTrailingSpace();
  }

  /** `_normalize` is not idempotent: the replacement of `zero` runs before
      punctuation is dropped, so dropping a `.` can assemble a `zero` that
      only the next pass replaces. */
  lemma NormalizeNotIdempotentZero()
    ensures Normalize("ze.ro") == "zero"
    ensures Normalize(Normalize("ze.ro")) == "0"
  {
    NormalizeDottedZero();
    NormalizeZero();
  }

  // The lemmas below compute the two witnesses above one stage at a time,
  // each fixing what one stage does to one concrete text.

  lemma NormalizeSpaceBang()
    ensures Normalize("a !") == "a "
  {
    SpaceBangStripped();
    SpaceBangKeepsZeroFree();
    SpaceBangDropsBang();
    CollapseKeepsSpace();
    NormalizeFromStages("a !", "a !", "a !", "a ", "a ");
  }

  lemma SpaceBangStripped()
    ensures Strip(Lower("a !")) == "a !"
  {
    var s := "a !";
    assert Lower(s) == s by { LowerKeepsLowerCase(s); }
    assert Strip(s) == s by { StripKeepsStripped(s); }
  }

  lemma SpaceBangKeepsZeroFree()
    ensures ReplaceZero("a !") == "a !"
  {
    NoZeroWithoutZ("a !");
    ReplaceZeroKeepsZeroFree("a !");
  }

  lemma SpaceBangDropsBang()
    ensures DropPunctuation("a !") == "a "
  {
    assert "a !" == "a " + "!";
    DropPunctuationAppend("a ", "!");
    DropPunctuationKeeps("a ");
    assert "!"[1..] == [];
  }

  lemma CollapseKeepsSpace()
    ensures CollapseWhitespace("a ") == "a "
  {
    assert OnlyPlainSpaces("a ") && SingleSpaced("a ");
    CollapseFromKeepsNormalForm("a ", false);
  }

  lemma StripTrailingSpace()
    ensures Strip("a ") == "a"
  {
    assert TrimStart("a ") == "a ";
    assert "a "[..1] == "a";
    assert TrimEnd("a ") == "a";
  }

  lemma NormalizeLetter()
    ensures Normalize("a") == "a"
  {
    NoZeroWithoutZ("a");
    NormalizeKeepsNormalForm("a");
  }

  lemma NormalizeTrailingSpace()
    ensures Normalize("a ") == "a"
  {
    StripTrailingSpace();
    NormalizeLetter();
    NormalizeIgnoresSurroundingSpace("a ");
  }

  /** A `zero` interrupted by punctuation is not replaced. */
  lemma ReplaceZeroSeparated()
    ensures ReplaceZero("ze.ro") == "ze.ro"
  {
    var s := "ze.ro";
    assert s[2] != "zero"[2];
    assert !IsPrefix("zero", s);
    assert s[1..] == "e.ro";
    NoZeroWithoutZ("e.ro");
    ReplaceZeroKeepsZeroFree("e.ro");
  }

  /** `Normalize` from the results of its four stages. */
  lemma NormalizeFromStages(s: string, trimmed: string, replaced: string, unpunctuated: string, r: string)
    requires Strip(Lower(s)) == trimmed
    requires ReplaceZero(trimmed) == replaced
    requires DropPunctuation(replaced) == unpunctuated
    requires CollapseWhitespace(unpunctuated) == r
    ensures Normalize(s) == r
  {
  }

  lemma DottedZeroStripped()
    ensures Strip(Lower("ze.ro")) == "ze.ro"
  {
    var s := "ze.ro";
    assert Lower(s) == s by { LowerKeepsLowerCase(s); }
    assert Strip(s) == s by { StripKeepsStripped(s); }
  }

  lemma DottedZeroDropsDot()
    ensures DropPunctuation("ze.ro") == "zero"
  {
    assert "ze.ro" == "ze." + "ro";
    assert "ze." == "ze" + ".";
    DropPunctuationAppend("ze.", "ro");
    DropPunctuationAppend("ze", ".");
    DropPunctuationKeeps("ze");
    DropPunctuationKeeps("ro");
    assert "."[1..] == [];
  }

  lemma CollapseKeepsZero()
    ensures CollapseWhitespace("zero") == "zero"
  {
    assert OnlyPlainSpaces("zero") && SingleSpaced("zero");
    CollapseFromKeepsNormalForm("zero", false);
  }

  lemma NormalizeDottedZero()
    ensures Normalize("ze.ro") == "zero"
  {
    DottedZeroStripped();
    ReplaceZeroSeparated();
    DottedZeroDropsDot();
    CollapseKeepsZero();
    NormalizeFromStages("ze.ro", "ze.ro", "ze.ro", "zero", "zero");
  }

  lemma NormalizeZero()
    ensures Normalize("zero") == "0"
  {
    var z := "zero";
    assert Lower(z) == z by { LowerKeepsLowerCase(z); }
    assert Strip(z) == z by { StripKeepsStripped(z); }
    assert ReplaceZero(z) == "0" by {
      assert IsPrefix("zero", z) && z[4..] == [];
    }
    assert DropPunctuation("0") == "0";
    assert CollapseWhitespace("0") == "0" by {
      assert OnlyPlainSpaces("0") && SingleSpaced("0");
      CollapseFromKeepsNormalForm("0", false);
    }
  }

  // ---------------------------------------------------------------------------
  // Classification

  /** The separator between alternative expected texts. */
  const Alternation: char := '|'

  /** `[e.strip() for e in expected_raw.split("|")]`. */
  function ExpectedOptions(expectedRaw: string): (options: seq<string>)
    ensures |options| == CountChar(expectedRaw, Alternation) + 1
    ensures forall o :: o in options ==> Strip(o) == o && Alternation !in o
  {
    var parts := Split(expectedRaw, Alternation);
    SplitCount(expectedRaw, Alternation);
    StripPieces(parts);
    seq(|parts|, i requires 0 <= i < |parts| => Strip(parts[i]))
  }

  /** Stripping a piece of a split gives a stripped text that still has no
      separator in it. */
  lemma StripPieces(parts: seq<string>)
    requires forall p :: p in parts ==> Alternation !in p
    ensures forall i :: 0 <= i < |parts| ==> Strip(Strip(parts[i])) == Strip(parts[i])
    ensures forall i :: 0 <= i < |parts| ==> Alternation !in Strip(parts[i])
  {
    forall i | 0 <= i < |parts|
      ensures Strip(Strip(parts[i])) == Strip(parts[i]) && Alternation !in Strip(parts[i])
    {
      StripIdempotent(parts[i]);
      StripChars(parts[i]);
    }
  }

  /** `[_normalize(e) for e in options]`. */
  function NormalizeAll(options: seq<string>): (norms: seq<string>)
    ensures |norms| == |options|
    ensures forall i :: 0 <= i < |options| ==> norms[i] == Normalize(options[i])
  {
    seq(|options|, i requires 0 <= i < |options| => Normalize(options[i]))
  }

  /** Step 1: some normalised option occurs in the normalised output. */
  predicate SubstringMatch(normActual: string, normOptions: seq<string>) {
    exists e :: e in normOptions && Contains(normActual, e)
  }

  /** Step 2: the output parses as a number and equals, as a number, some
      option that parses too. */
  predicate NumericMatch(actual: string, options: seq<string>, fp: FloatParsing) {
    fp.IsNumber(actual) && exists e :: e in options && fp.IsNumber(e) && fp.NumbersEqual(actual, e)
  }

  /** Step 3's condition on the expectation: some normalised option mentions
      an error or asks for a number. */
  predicate ExpectsValidationMessage(normOptions: seq<string>) {
    exists e :: e in normOptions && (Contains(e, "error") || Contains(e, "please enter a number"))
  }

  /**
   The verdict `test_edge_cases` reaches for output `actual` against the
   pipe-separated expectation `expectedRaw`. The steps are tried in order and
   the first that applies decides. The build plays no part.
   */
  function EdgeVerdict(actual: string, expectedRaw: string, fp: FloatParsing): (v: Verdict)
    ensures v == XFail ==> Normalize(actual) == ""
    ensures v == XFail ==> forall e :: e in ExpectedOptions(expectedRaw) ==> Normalize(e) != ""
    ensures v == Fail ==> !NumericMatch(actual, ExpectedOptions(expectedRaw), fp)
    ensures v == XFail <==> (&& v != Pass && Normalize(actual) == ""
                             && ExpectsValidationMessage(NormalizeAll(ExpectedOptions(expectedRaw))))
    ensures v == Pass <==> (SubstringMatch(Normalize(actual), NormalizeAll(ExpectedOptions(expectedRaw)))
                            || NumericMatch(actual, ExpectedOptions(expectedRaw), fp))
  {
    var normActual := Normalize(actual);
    var options := ExpectedOptions(expectedRaw);
    var normOptions := NormalizeAll(options);
    if SubstringMatch(normActual, normOptions) then Pass
    else if NumericMatch(actual, options, fp) then Pass
    else if normActual == "" && ExpectsValidationMessage(normOptions) then
      assert forall e :: e in options ==> Normalize(e) != "" by {
        forall e | e in options
          ensures Normalize(e) != ""
        {
          var i :| 0 <= i < |options| && options[i] == e;
          assert normOptions[i] in normOptions;
          ContainsSelfAndEmpty(normActual);
        }
      }
      XFail
    else Fail
  }

  /** An output equal to one of the stripped alternatives passes, although no
      step compares raw strings: equal texts normalise equally and a text
      contains itself. */
  lemma EdgeExactOptionPasses(actual: string, expectedRaw: string, fp: FloatParsing)
    requires actual in ExpectedOptions(expectedRaw)
    ensures EdgeVerdict(actual, expectedRaw, fp) == Pass
  {
    var options := ExpectedOptions(expectedRaw);
    var i :| 0 <= i < |options| && options[i] == actual;
    var normOptions := NormalizeAll(options);
    ContainsSelfAndEmpty(Normalize(actual));
    assert normOptions[i] in normOptions;
  }

  /** An alternative that normalises to the empty string accepts every
      output, since the empty string occurs in every text. */
  lemma EdgeEmptyOptionPasses(actual: string, expectedRaw: string, fp: FloatParsing)
    requires exists e :: e in ExpectedOptions(expectedRaw) && Normalize(e) == ""
    ensures EdgeVerdict(actual, expectedRaw, fp) == Pass
  {
    var options := ExpectedOptions(expectedRaw);
    var e :| e in options && Normalize(e) == "";
    var i :| 0 <= i < |options| && options[i] == e;
    var normOptions := NormalizeAll(options);
    ContainsSelfAndEmpty(Normalize(actual));
    assert normOptions[i] in normOptions;
  }

  /** The text between two separators is one option. */
  lemma ExpectedOptionsAppend(e1: string, e2: string)
    ensures ExpectedOptions(e1 + [Alternation] + e2) == ExpectedOptions(e1) + ExpectedOptions(e2)
  {
    SplitAppend(e1, e2, Alternation);
  }

  /** A trailing `|` adds an empty alternative, which accepts every output. */
  lemma EdgeTrailingSeparatorPasses(actual: string, expected: string, fp: FloatParsing)
    ensures EdgeVerdict(actual, expected + "|", fp) == Pass
  {
    assert expected + "|" == expected + [Alternation] + "";
    ExpectedOptionsAppend(expected, "");
    SingleOption("");
    assert Strip("") == "" by {
      StripKeepsStripped("");
    }
    NormalizeEmpty();
    assert "" in ExpectedOptions(expected + "|");
    EdgeEmptyOptionPasses(actual, expected + "|", fp);
  }

  lemma NormalizeAllAppend(a: seq<string>, b: seq<string>)
    ensures NormalizeAll(a + b) == NormalizeAll(a) + NormalizeAll(b)
  {
  }

  lemma SubstringMatchAppend(n: string, a: seq<string>, b: seq<string>)
    ensures SubstringMatch(n, a + b) <==> SubstringMatch(n, a) || SubstringMatch(n, b)
  {
    if SubstringMatch(n, a + b) {
      var e :| e in a + b && Contains(n, e);
      assert e in a || e in b;
    }
  }

  lemma NumericMatchAppend(actual: string, a: seq<string>, b: seq<string>, fp: FloatParsing)
    ensures NumericMatch(actual, a + b, fp) <==> NumericMatch(actual, a, fp) || NumericMatch(actual, b, fp)
  {
    if NumericMatch(actual, a + b, fp) {
      var e :| e in a + b && fp.IsNumber(e) && fp.NumbersEqual(actual, e);
      assert e in a || e in b;
    }
  }

  /** Alternatives are disjunctive: an output passes against `e1|e2` exactly
      when it passes against `e1` or against `e2`. */
  lemma EdgeAlternativesDisjunctive(actual: string, e1: string, e2: string, fp: FloatParsing)
    ensures EdgeVerdict(actual, e1 + "|" + e2, fp) == Pass
      <==> EdgeVerdict(actual, e1, fp) == Pass || EdgeVerdict(actual, e2, fp) == Pass
  {
    var o1 := ExpectedOptions(e1);
    var o2 := ExpectedOptions(e2);
    assert ExpectedOptions(e1 + "|" + e2) == o1 + o2 by {
      assert e1 + "|" + e2 == e1 + [Alternation] + e2;
      ExpectedOptionsAppend(e1, e2);
    }
    NormalizeAllAppend(o1, o2);
    SubstringMatchAppend(Normalize(actual), NormalizeAll(o1), NormalizeAll(o2));
    NumericMatchAppend(actual, o1, o2, fp);
  }

  /** An expected defect is declared only for output that is blank or
      punctuation once stripped. */
  lemma EdgeXFailOnlyForBlankOutput(actual: string, expectedRaw: string, fp: FloatParsing)
    requires EdgeVerdict(actual, expectedRaw, fp) == XFail
    ensures forall c :: c in Strip(actual) ==> IsDroppedPunctuation(c)
  {
    NormalizeEmptyIff(actual);
  }

  /** Empty output normalises to the empty string. */
  lemma NormalizeEmpty()
    ensures Normalize("") == ""
  {
    assert Strip(Lower("")) == "" by {
      assert Lower("") == "";
      StripKeepsStripped("");
    }
    assert ReplaceZero("") == "" by {
      ReplaceZeroKeepsZeroFree("");
    }
    assert DropPunctuation("") == "";
    assert CollapseWhitespace("") == "";
    NormalizeFromStages("", "", "", "", "");
  }

  /** An expectation without a separator is a single option. */
  lemma SingleOption(expected: string)
    requires Alternation !in expected
    ensures ExpectedOptions(expected) == [Strip(expected)]
  {
    SplitNoSeparator(expected, Alternation);
  }

  /** Empty output against a single expected validation message is an
      expected defect, not a failure, given that `float("")` raises. */
  lemma EdgeSilentValidationIsExpectedDefect(expected: string, fp: FloatParsing)
    requires Alternation !in expected
    requires Contains(Normalize(Strip(expected)), "please enter a number")
    requires !fp.IsNumber("")
    ensures EdgeVerdict("", expected, fp) == XFail
  {
    var m := Normalize(Strip(expected));
    assert m != "" by {
      EmptyContainsOnlyEmpty("please enter a number");
    }
    SingleOptionNormalized(expected);
    BlankMatchesNoMessage(m);
    NormalizeEmpty();
    assert ExpectsValidationMessage([m]) by {
      assert m in [m];
    }
    EdgeXFailFromSteps("", expected, fp);
  }

  lemma SingleOptionNormalized(expected: string)
    requires Alternation !in expected
    ensures NormalizeAll(ExpectedOptions(expected)) == [Normalize(Strip(expected))]
  {
    SingleOption(expected);
  }

  /** Blank output contains no non-empty message. */
  lemma BlankMatchesNoMessage(m: string)
    requires m != ""
    ensures !SubstringMatch(Normalize(""), [m])
  {
    NormalizeEmpty();
    EmptyContainsOnlyEmpty(m);
  }

  /** Steps 1 and 2 fail, the output is blank and a message is expected. */
  lemma EdgeXFailFromSteps(actual: string, expectedRaw: string, fp: FloatParsing)
    requires !SubstringMatch(Normalize(actual), NormalizeAll(ExpectedOptions(expectedRaw)))
    requires !fp.IsNumber(actual)
    requires Normalize(actual) == ""
    requires ExpectsValidationMessage(NormalizeAll(ExpectedOptions(expectedRaw)))
    ensures EdgeVerdict(actual, expectedRaw, fp) == XFail
  {
  }

  // ---------------------------------------------------------------------------
  // The test flow

  /** One row of the edge-case table, with `build` and `op` already converted
      by `int()`. */
  datatype Row = Row(build: int, op: int, a: string, b: string, integerOnly: string, expected: string)

  /** The operation code of Concatenate, for which the integer-only toggle is
      left alone. */
  const Concatenate: int := 4

  /** `row["integer_only"].lower() == "true"`: only a field spelling `true`
      in any case, with nothing around it, sets the flag. */
  function IntegerOnlyFlag(field: string): (flag: bool)
    ensures flag <==> |field| == 4 && forall i :: 0 <= i < 4 ==> ToLower(field[i]) == "true"[i]
  {
    Lower(field) == "true"
  }

  /**
   The interaction part of `test_edge_cases`: select the build, type the
   operands, choose the operation, and set the integer-only toggle unless the
   operation is Concatenate. The first exception ends the flow.
   */
  function DriveRow(p: Page, row: Row): (r: Step)
    ensures r.Ok() <==> (&& p.buildSelect.presence.Visible() && IntToString(row.build) in p.buildSelect.values
                         && p.number1.presence.Visible() && p.number2.presence.Visible()
                         && p.operation.presence.Visible() && IntToString(row.op) in p.operation.values
                         && (row.op == Concatenate || p.integerOnly.presence.Clickable()))
    ensures r.Ok() ==> r.page.buildSelect.selected == IntToString(row.build)
    ensures r.Ok() ==> r.page.operation.selected == IntToString(row.op)
    ensures r.Ok() ==> ParseInt(r.page.operation.selected) == Some(row.op)
    ensures r.Ok() ==> r.page.number1.value == row.a && r.page.number2.value == row.b
    ensures r.Ok() && row.op != Concatenate ==> r.page.integerOnly.checked == IntegerOnlyFlag(row.integerOnly)
    ensures row.op == Concatenate ==> r.page.integerOnly == p.integerOnly && ClicksOnly(p, r.page, {})
    ensures ClicksOnly(p, r.page, {IntegerOnly})
    ensures r.page.lastAlertText == p.lastAlertText && r.page.calculateButton == p.calculateButton
    ensures r.page.alertOnCalculate == p.alertOnCalculate
    ensures r.page.answer == p.answer && r.page.body == p.body
  {
    var chosen := ChooseBuild(p, row.build);
    if !chosen.Ok() then chosen
    else
      var typed := SetNumbers(chosen.page, row.a, row.b);
      ClicksOnlyTrans(p, chosen.page, typed.page, {}, {});
      if !typed.Ok() then typed
      else
        var operated := ChooseOperation(typed.page, row.op);
        ClicksOnlyTrans(p, typed.page, operated.page, {}, {});
        if !operated.Ok() || row.op == Concatenate then operated
        else
          var toggled := SetIntegerOnly(operated.page, IntegerOnlyFlag(row.integerOnly));
          ClicksOnlyTrans(p, operated.page, toggled.page, {}, {IntegerOnly});
          toggled
  }

  /**
   `test_edge_cases(calc, row)`: drive the row, calculate, read the output
   and classify it. Nothing here catches an exception: a timeout or a missing
   option ends the test as raised rather than as an expected defect. For
   Concatenate the integer-only toggle is never clicked and keeps its state.
   */
  function RunEdgeCase(p: Page, row: Row, fp: FloatParsing): (run: Run)
    ensures run.result.Classified? <==> DriveRow(p, row).Ok() && DriveRow(p, row).page.calculateButton.Clickable()
    ensures run.result.Classified?
      ==> run.result.verdict == EdgeVerdict(ReadAnswer(run.page), row.expected, fp)
    ensures run.result.Classified?
      ==> run.result.verdict == EdgeVerdict(ReadAnswer(p.(lastAlertText := p.alertOnCalculate)), row.expected, fp)
    ensures run.result.Classified? ==> run.page.lastAlertText == p.alertOnCalculate
    ensures row.op == Concatenate ==> run.page.integerOnly == p.integerOnly
    ensures row.op == Concatenate ==> ClicksOnly(p, run.page, {CalculateButton})
  {
    var driven := DriveRow(p, row);
    if !driven.Ok() then Run(driven.page, Raised(driven.error.value))
    else
      var calculated := Calculate(driven.page);
      ClicksOnlyTrans(p, driven.page, calculated.page, if row.op == Concatenate then {} else {IntegerOnly}, {CalculateButton});
      if !calculated.Ok() then Run(calculated.page, Raised(calculated.error.value))
      else
        var actual := ReadAnswer(calculated.page);
        ReadAnswerReadsOnly(calculated.page, p.(lastAlertText := p.alertOnCalculate));
        Run(calculated.page, Classified(EdgeVerdict(actual, row.expected, fp)))
  }

  /** The build of a row only selects the build: two rows that differ in
      nothing but the build, run against pages that show the same output,
      reach the same verdict. */
  lemma EdgeVerdictIgnoresBuild(p: Page, q: Page, row: Row, otherBuild: int, fp: FloatParsing)
    requires RunEdgeCase(p, row, fp).result.Classified?
    requires RunEdgeCase(q, row.(build := otherBuild), fp).result.Classified?
    requires ReadAnswer(RunEdgeCase(p, row, fp).page) == ReadAnswer(RunEdgeCase(q, row.(build := otherBuild), fp).page)
    ensures RunEdgeCase(p, row, fp).result == RunEdgeCase(q, row.(build := otherBuild), fp).result
  {
  }
}
