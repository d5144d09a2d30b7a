/**
 * `pname`: a project name folded into one PascalCase token. Hyphens and
 * underscores become spaces, the text is title-cased, and every space is
 * then deleted.
 */
module ProjectName {
  import opened Text
  import Regex
  import Inflector

  /** The class `[-_]` whose members are turned into spaces. */
  const WordSeparators: Regex.Class := {'-', '_'}

  /**
   * `pname`: `[-_]` replaced by spaces, title case, spaces removed. The
   * result is the one-pass PascalCase of the input.
   */
  function Pname(input: string): (r: string)
    ensures r == PascalFrom(input, true)
  {
    Inflector.TitleCaseIsOnePass(Regex.ReplaceAll(input, WordSeparators, " "));
    PipelineFrom(input, true);
    var spaced := Regex.ReplaceAll(input, WordSeparators, " ");
    Regex.ReplaceAll(Inflector.TitleCase(spaced), {' '}, "")
  }

  /** A character that ends a word of a project name. */
  predicate IsBreak(c: char)
  {
    c == ' ' || c in WordSeparators
  }

  /**
   * PascalCase in one pass, independent of the regex-and-title-case
   * pipeline: breaks are dropped, a character that starts a word is
   * upper-cased and every other one lower-cased. `atStart` says whether
   * the next character starts a word.
   */
  function PascalFrom(s: string, atStart: bool): (r: string)
    ensures forall c {:trigger c in r} :: c in r ==> !IsBreak(c)
    decreases |s|
  {
    if s == [] then []
    else if IsBreak(s[0]) then PascalFrom(s[1..], true)
    else [Inflector.CaseChar(s[0], atStart)] + PascalFrom(s[1..], false)
  }

  lemma {:induction false} PipelineFrom(s: string, atStart: bool)
    ensures Regex.ReplaceAll(Inflector.TitleFrom(Regex.ReplaceAll(s, WordSeparators, " "), atStart), {' '}, "")
      == PascalFrom(s, atStart)
    decreases |s|
  {
    if s != [] {
      PipelineFrom(s[1..], IsBreak(s[0]));
      var x := Regex.ReplaceAll(s, WordSeparators, " ");
      var head: string := if s[0] in WordSeparators then " " else [s[0]];
      assert x == head + Regex.ReplaceAll(s[1..], WordSeparators, " ");
      assert x[0] == ' ' <==> IsBreak(s[0]);
      assert x[1..] == Regex.ReplaceAll(s[1..], WordSeparators, " ");
      var y := Inflector.TitleFrom(x, atStart);
      assert y[0] == Inflector.CaseChar(x[0], atStart);
      assert y[1..] == Inflector.TitleFrom(x[1..], IsBreak(s[0]));
      assert y[0] == ' ' <==> IsBreak(s[0]);
      assert !IsBreak(s[0]) ==> x[0] == s[0];
    }
  }

  /** The result of `pname` holds no space, hyphen or underscore. */
  lemma PnameHasNoBreaks(input: string)
    ensures ' ' !in Pname(input) && '-' !in Pname(input) && '_' !in Pname(input)
  {
  }

  /** In `pname` a hyphen or an underscore acts exactly as a space does. */
  lemma PnameSeparatorIsSpace(input: string, i: int)
    requires 0 <= i < |input| && input[i] in WordSeparators
    ensures Pname(input[i := ' ']) == Pname(input)
  {
    var t := input[i := ' '];
    Regex.ReplaceAllAt(input, WordSeparators, ' ');
    Regex.ReplaceAllAt(t, WordSeparators, ' ');
    assert Regex.ReplaceAll(t, WordSeparators, " ") == Regex.ReplaceAll(input, WordSeparators, " ");
  }

  /** One pass over a word without breaks cases its first character and lower-cases the rest. */
  lemma {:induction false} PascalFromWord(w: string, atStart: bool)
    requires w != [] && forall k :: 0 <= k < |w| ==> !IsBreak(w[k])
    ensures PascalFrom(w, atStart) == [Inflector.CaseChar(w[0], atStart)] + Lowercase(w[1..])
    decreases |w|
  {
    if |w| > 1 {
      PascalFromWord(w[1..], false);
      LowercaseCons(w[1], w[2..]);
      assert w[1..] == [w[1]] + w[2..];
    } else {
      assert Lowercase(w[1..]) == [];
    }
  }

  /**
   * A name that is a single word (no breaks) comes out capitalised, and
   * folding that result again changes nothing.
   */
  lemma PnameOneWord(w: string)
    requires forall k :: 0 <= k < |w| ==> !IsBreak(w[k])
    ensures Pname(w) == Inflector.Capitalize(w)
    ensures Pname(Pname(w)) == Pname(w)
  {
    if w != [] {
      PascalFromWord(w, true);
      var c := Inflector.Capitalize(w);
      assert c[1..] == Lowercase(w[1..]);
      PascalFromWord(c, true);
      LowercaseIdempotent(w[1..]);
    } else {
      assert Pname(w) == [];
    }
  }

  lemma PnameJoinsWords()
    ensures Pname("a-b") == "AB"
  {
  }

  lemma PnameLowersInnerCapital()
    ensures Pname("AB") == "Ab"
  {
  }

  /**
   * Under the word-by-word title case `pname` is not idempotent on
   * multi-word names: the second pass lower-cases the inner capitals.
   */
  lemma PnameNotIdempotent()
    ensures Pname(Pname("a-b")) != Pname("a-b")
  {
    PnameJoinsWords();
    PnameLowersInnerCapital();
  }

  /** A word followed by a break: the word is cased on its own, and a new word starts after the break. */
  lemma {:induction false} PascalFromWordThenBreak(w: string, b: char, rest: string, atStart: bool)
    requires forall k :: 0 <= k < |w| ==> !IsBreak(w[k])
    requires IsBreak(b)
    ensures PascalFrom(w + [b] + rest, atStart) == PascalFrom(w, atStart) + PascalFrom(rest, true)
    decreases |w|
  {
    if w == [] {
      assert w + [b] + rest == [b] + rest;
    } else {
      PascalFromWordThenBreak(w[1..], b, rest, false);
      assert (w + [b] + rest)[0] == w[0] && !IsBreak(w[0]);
      assert (w + [b] + rest)[1..] == w[1..] + [b] + rest;
    }
  }

  /*
   * The sample names below are given as their words joined by their
   * separators, and the proofs go word by word through
   * PascalFromWordThenBreak and PascalFromWord.
   */

  lemma PascalSampleFontName(rest: string)
    requires rest == "font" + "_" + "name"
    ensures PascalFrom(rest, true) == "FontName"
  {
    assert rest == rest[..4] + ['_'] + rest[5..];
    PascalFromWordThenBreak(rest[..4], '_', rest[5..], true);
    PascalFromWord(rest[..4], true);
    PascalFromWord(rest[5..], true);
  }

  lemma PascalSampleMyFontName(name: string)
    requires name == "my" + "-" + "font" + "_" + "name"
    ensures PascalFrom(name, true) == "MyFontName"
  {
    assert name == name[..2] + ['-'] + name[3..];
    PascalFromWordThenBreak(name[..2], '-', name[3..], true);
    PascalFromWord(name[..2], true);
    PascalSampleFontName(name[3..]);
  }

  /** `my-font_name` folds to `MyFontName`. */
  lemma PnameSampleMyFontName(name: string)
    requires name == "my" + "-" + "font" + "_" + "name"
    ensures Pname(name) == "MyFontName"
  {
    PascalSampleMyFontName(name);
  }

  lemma PascalSampleAlreadyTitle(name: string)
    requires name == "already" + " " + "Title"
    ensures PascalFrom(name, true) == "AlreadyTitle"
  {
    assert name == name[..7] + [' '] + name[8..];
    PascalFromWordThenBreak(name[..7], ' ', name[8..], true);
    PascalFromWord(name[..7], true);
    PascalFromWord(name[8..], true);
  }

  /** `already Title` folds to `AlreadyTitle`. */
  lemma PnameSampleAlreadyTitle(name: string)
    requires name == "already" + " " + "Title"
    ensures Pname(name) == "AlreadyTitle"
  {
    PascalSampleAlreadyTitle(name);
  }
}
