/**
 * `format_font_version`: a font version string with its packaging-revision
 * suffix removed. The regex `-r.*$` is replaced by nothing, so everything
 * from the first `-r` that has no line feed after it to the end is dropped.
 */
module Version {
  import Regex

  /** The `-r` of the pattern `-r.*$`: a hyphen, then the letter r. */
  const RevisionMarker: seq<Regex.Class> := [{'-'}, {'r'}]

  /** A match of `-r.*$` starts at i: `-r` there, and no line feed after it. */
  predicate RevisionAt(v: string, i: int)
  {
    0 <= i && i + 2 <= |v| && v[i] == '-' && v[i + 1] == 'r' && '\n' !in v[i + 2..]
  }

  lemma RevisionAtIsMatch(v: string)
    ensures forall i :: RevisionAt(v, i) <==> Regex.MatchesToEndAt(v, RevisionMarker, i)
  {
    forall i ensures RevisionAt(v, i) <==> Regex.MatchesToEndAt(v, RevisionMarker, i) {
      if 0 <= i && i + 2 <= |v| {
        assert Regex.OccursAt(v, RevisionMarker, i) <==> v[i] == '-' && v[i + 1] == 'r' by {
          assert RevisionMarker[0] == {'-'} && RevisionMarker[1] == {'r'};
        }
      }
    }
  }

  /**
   * `format_font_version`: the version cut just before its first revision
   * marker, or the version itself when it has none.
   */
  function FormatFontVersion(version: string): (r: string)
    ensures r <= version
    ensures |r| < |version| ==> RevisionAt(version, |r|)
    ensures forall j :: 0 <= j < |r| ==> !RevisionAt(version, j)
    ensures r == version <==> forall j :: 0 <= j < |version| ==> !RevisionAt(version, j)
  {
    RevisionAtIsMatch(version);
    Regex.ReplaceFirstToEnd(version, RevisionMarker)
  }

  /** Stripping the revision twice is stripping it once. */
  lemma FormatFontVersionIdempotent(version: string)
    ensures FormatFontVersion(FormatFontVersion(version)) == FormatFontVersion(version)
  {
    assert Regex.NoLineFeed(RevisionMarker) by {
      assert RevisionMarker[0] == {'-'} && RevisionMarker[1] == {'r'};
    }
    Regex.ReplaceFirstIdempotent(version, RevisionMarker);
  }

  /** On a single line, the version is cut exactly at its first `-r`. */
  lemma FormatFontVersionCutsAtFirstMarker(version: string, i: int)
    requires '\n' !in version
    requires 0 <= i && i + 1 < |version| && version[i] == '-' && version[i + 1] == 'r'
    requires forall j :: 0 <= j < i ==> !(version[j] == '-' && version[j + 1] == 'r')
    ensures FormatFontVersion(version) == version[..i]
  {
    RevisionAtIsMatch(version);
    var p := RevisionMarker;
    assert p[0] == {'-'} && p[1] == {'r'};
    assert Regex.OccursAt(version, p, i);
    forall j | 0 <= j < i ensures !Regex.OccursAt(version, p, j) {
      assert !(version[j] in p[0] && version[j + 1] in p[1]);
    }
    Regex.ReplaceFirstPlain(version, p, i);
  }

  /** A version without `-r` anywhere comes back unchanged. */
  lemma FormatFontVersionWithoutMarker(version: string)
    requires forall j :: 0 <= j < |version| - 1 ==> !(version[j] == '-' && version[j + 1] == 'r')
    ensures FormatFontVersion(version) == version
  {
  }

  lemma FormatFontVersionDropsRevision()
    ensures FormatFontVersion("1.002-r3") == "1.002"
  {
  }

  lemma FormatFontVersionKeepsPlainVersion()
    ensures FormatFontVersion("1.002") == "1.002"
  {
  }

  /**
   * `.` does not match a line feed: a marker with a line feed after it is
   * not a match, and the version is left as it is.
   */
  lemma FormatFontVersionKeepsMarkerBeforeLineFeed()
    ensures FormatFontVersion("1.0-r2\n") == "1.0-r2\n"
  {
  }
}
