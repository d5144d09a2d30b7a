/**
 * Character and string helpers shared by the normalisers: ASCII case
 * mapping (the model of Rust's `to_lowercase` / `to_uppercase` on the
 * characters that matter here), and `str::split` / `[..].join` on a
 * single separator.
 */
module Text {

  predicate IsAsciiUpper(c: char) { 'A' <= c <= 'Z' }

  predicate IsAsciiLower(c: char) { 'a' <= c <= 'z' }

  /** Lower-cases an ASCII letter; every other character is left alone. */
  function ToLower(c: char): (r: char)
    ensures !IsAsciiUpper(r)
    ensures r == c || (IsAsciiUpper(c) && IsAsciiLower(r))
    ensures IsAsciiUpper(c) ==> r as int == c as int + 32
    ensures !IsAsciiUpper(c) ==> r == c
  {
    if IsAsciiUpper(c) then (c as int + 32) as char else c
  }

  /** Upper-cases an ASCII letter; every other character is left alone. */
  function ToUpper(c: char): (r: char)
    ensures !IsAsciiLower(r)
    ensures r == c || (IsAsciiLower(c) && IsAsciiUpper(r))
    ensures IsAsciiLower(c) ==> r as int == c as int - 32
    ensures !IsAsciiLower(c) ==> r == c
  {
    if IsAsciiLower(c) then (c as int - 32) as char else c
  }

  /**
   * `str::to_lowercase`, character by character.
   */
  function Lowercase(s: string): (r: string)
    ensures |r| == |s|
  {
    seq(|s|, i requires 0 <= i < |s| => ToLower(s[i]))
  }

  /**
   * Lower-casing keeps the length, turns each upper-case letter into its own
   * lower-case letter and leaves every other character as it is.
   */
  lemma LowercaseAt(s: string)
    ensures forall i :: 0 <= i < |s| ==> !IsAsciiUpper(Lowercase(s)[i])
    ensures forall i :: 0 <= i < |s| && IsAsciiUpper(s[i]) ==> Lowercase(s)[i] as int == s[i] as int + 32
    ensures forall i :: 0 <= i < |s| && !IsAsciiUpper(s[i]) ==> Lowercase(s)[i] == s[i]
  {
  }

  lemma LowercaseIdempotent(s: string)
    ensures Lowercase(Lowercase(s)) == Lowercase(s)
  {
  }

  lemma LowercaseCons(c: char, s: string)
    ensures Lowercase([c] + s) == [ToLower(c)] + Lowercase(s)
  {
  }

  /**
   * `s.split(sep)`: the pieces between the separators, in order, empty
   * pieces included; there is always at least one piece.
   */
  function Split(s: string, sep: char): (ws: seq<string>)
    ensures |ws| >= 1
    ensures forall k :: 0 <= k < |ws| ==> sep !in ws[k]
    decreases |s|
  {
    if s == [] then [[]]
    else
      var rest := Split(s[1..], sep);
      if s[0] == sep then [[]] + rest
      else [[s[0]] + rest[0]] + rest[1..]
  }

  /** `ws.join(sep)`: the pieces with `sep` between neighbours. */
  function Join(ws: seq<string>, sep: string): (r: string)
    ensures |ws| == 1 ==> r == ws[0]
    ensures |ws| == 2 ==> r == ws[0] + sep + ws[1]
  {
    if ws == [] then []
    else if |ws| == 1 then ws[0]
    else ws[0] + sep + Join(ws[1..], sep)
  }

  /** Growing the first piece at its front grows the joined text at its front. */
  lemma JoinOntoFirst(a: string, ws: seq<string>, sep: string)
    requires |ws| >= 1
    ensures Join([a + ws[0]] + ws[1..], sep) == a + Join(ws, sep)
  {
  }
}
