/**
 * A stand-in for `to_title_case` of the `inflector` crate, whose source is
 * not part of this model. It is modelled as an assumption, on ASCII
 * letters only: split the text on spaces, upper-case the first character
 * of each word and lower-case the rest, and join the words with spaces
 * again.
 */
module Inflector {
  import opened Text

  /** The case a character takes: upper when it starts a word, lower otherwise. */
  function CaseChar(c: char, upper: bool): char
  {
    if upper then ToUpper(c) else ToLower(c)
  }

  /** One word: first character upper-cased, the rest lower-cased. */
  function Capitalize(w: string): string
  {
    if w == [] then [] else [ToUpper(w[0])] + Lowercase(w[1..])
  }

  function CapitalizeAll(ws: seq<string>): (r: seq<string>)
    ensures |r| == |ws|
  {
    if ws == [] then [] else [Capitalize(ws[0])] + CapitalizeAll(ws[1..])
  }

  /**
   * The assumed `to_title_case`: word by word, split and joined on spaces.
   * It keeps the length, and a space stays exactly where a space was.
   */
  function TitleCase(s: string): (r: string)
    ensures |r| == |s|
    ensures forall i :: 0 <= i < |s| ==> (r[i] == ' ' <==> s[i] == ' ')
  {
    var ws := Split(s, ' ');
    TitleFromSplit(s, true);
    assert CapitalizeAll(ws) == [Capitalize(ws[0])] + CapitalizeAll(ws[1..]);
    forall i | 0 <= i < |s| ensures TitleFrom(s, true)[i] == ' ' <==> s[i] == ' ' {
      TitleFromAt(s, true, i);
    }
    Join(CapitalizeAll(ws), " ")
  }

  /**
   * Title-casing in one left-to-right pass: `atStart` says whether the
   * next character begins a word.
   */
  function TitleFrom(s: string, atStart: bool): (r: string)
    ensures |r| == |s|
  {
    if s == [] then [] else [CaseChar(s[0], atStart)] + TitleFrom(s[1..], s[0] == ' ')
  }

  /**
   * The word-by-word title case agrees with the one-pass title case, for
   * every first-word treatment (capitalised at a word start, lower-cased
   * when the word began earlier).
   */
  lemma {:induction false} TitleFromSplit(s: string, atStart: bool)
    ensures var ws := Split(s, ' ');
      Join([if atStart then Capitalize(ws[0]) else Lowercase(ws[0])] + CapitalizeAll(ws[1..]), " ")
      == TitleFrom(s, atStart)
    decreases |s|
  {
    var ws := Split(s, ' ');
    if s == [] {
      assert ws == [[]];
      assert Lowercase([]) == [];
    } else {
      var rest := Split(s[1..], ' ');
      if s[0] == ' ' {
        TitleFromSplit(s[1..], true);
        assert ws == [[]] + rest && ws[1..] == rest;
        assert Lowercase([]) == [];
        var caps := CapitalizeAll(rest);
        assert caps == [Capitalize(rest[0])] + CapitalizeAll(rest[1..]);
        calc {
          Join([[]] + caps, " ");
          [] + " " + Join(([[]] + caps)[1..], " ");
          { assert ([[]] + caps)[1..] == caps; }
          " " + TitleFrom(s[1..], true);
        }
        assert s[0] == ' ' && CaseChar(' ', atStart) == ' ';
      } else {
        TitleFromSplit(s[1..], false);
        assert ws == [[s[0]] + rest[0]] + rest[1..];
        var first := if atStart then Capitalize(ws[0]) else Lowercase(ws[0]);
        LowercaseCons(s[0], rest[0]);
        assert ([s[0]] + rest[0])[1..] == rest[0];
        assert first == [CaseChar(s[0], atStart)] + Lowercase(rest[0]);
        var tail := [Lowercase(rest[0])] + CapitalizeAll(rest[1..]);
        JoinOntoFirst([CaseChar(s[0], atStart)], tail, " ");
        assert [first] + CapitalizeAll(ws[1..]) == [[CaseChar(s[0], atStart)] + tail[0]] + tail[1..];
      }
    }
  }

  /** The assumed title case is the one-pass title case. */
  lemma TitleCaseIsOnePass(s: string)
    ensures TitleCase(s) == TitleFrom(s, true)
  {
    var ws := Split(s, ' ');
    TitleFromSplit(s, true);
    assert CapitalizeAll(ws) == [Capitalize(ws[0])] + CapitalizeAll(ws[1..]);
  }

  lemma {:induction false} TitleFromAt(s: string, atStart: bool, i: int)
    requires 0 <= i < |s|
    ensures TitleFrom(s, atStart)[i] == CaseChar(s[i], if i == 0 then atStart else s[i - 1] == ' ')
    decreases |s|
  {
    if i > 0 {
      TitleFromAt(s[1..], s[0] == ' ', i - 1);
    }
  }

  /**
   * Title case keeps the length, and a character is upper-cased exactly
   * when it begins the text or follows a space; all others are lower-cased.
   */
  lemma TitleCaseAt(s: string)
    ensures |TitleCase(s)| == |s|
    ensures forall i :: 0 <= i < |s| ==>
      TitleCase(s)[i] == CaseChar(s[i], i == 0 || s[i - 1] == ' ')
  {
    TitleCaseIsOnePass(s);
    forall i | 0 <= i < |s|
      ensures TitleCase(s)[i] == CaseChar(s[i], i == 0 || s[i - 1] == ' ')
    {
      TitleFromAt(s, true, i);
    }
  }
}
