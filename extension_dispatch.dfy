/**
 * How the command line picks a path from the input file name: a
 * case-insensitive comparison of the last four characters with ".png", then
 * with ".ico" (the `_wcsicmp` tests in `wmain`), in the default "C" locale,
 * where only the ASCII letters A-Z fold to lower case.
 */
module ExtensionDispatch {

  datatype Route = SingleImage | IconContainer | Unsupported

  const PngExtension: string := ".png"
  const IcoExtension: string := ".ico"

  function FoldAscii(c: char): char
  {
    if 'A' <= c <= 'Z' then (c as int + 32) as char else c
  }

  /** `_wcsicmp(a, b) == 0`: same length, and every pair of characters agrees after folding. */
  predicate EqualsIgnoringCase(a: string, b: string)
  {
    |a| == |b| && (a == [] || (FoldAscii(a[0]) == FoldAscii(b[0]) && EqualsIgnoringCase(a[1..], b[1..])))
  }

  lemma {:induction false} EqualsIgnoringCaseIff(a: string, b: string)
    ensures EqualsIgnoringCase(a, b) <==>
      |a| == |b| && forall i :: 0 <= i < |a| ==> FoldAscii(a[i]) == FoldAscii(b[i])
  {
    if |a| == |b| && a != [] {
      EqualsIgnoringCaseIff(a[1..], b[1..]);
      if forall i :: 0 <= i < |a| ==> FoldAscii(a[i]) == FoldAscii(b[i]) {
        assert forall i :: 0 <= i < |a| - 1 ==> FoldAscii(a[1..][i]) == FoldAscii(b[1..][i]) by {
          forall i | 0 <= i < |a| - 1 ensures FoldAscii(a[1..][i]) == FoldAscii(b[1..][i]) {
            assert a[1..][i] == a[i + 1] && b[1..][i] == b[i + 1];
          }
        }
      }
      if EqualsIgnoringCase(a, b) {
        forall i | 0 <= i < |a| ensures FoldAscii(a[i]) == FoldAscii(b[i]) {
          if i > 0 {
            assert a[1..][i - 1] == a[i] && b[1..][i - 1] == b[i];
          }
        }
      }
    }
  }

  /** The path is at least four characters long and ends with `ext`, ignoring case. */
  predicate HasExtension(path: string, ext: string)
    requires |ext| == 4
  {
    |path| >= 4 && EqualsIgnoringCase(path[|path| - 4..], ext)
  }

  function RouteFor(path: string): Route
  {
    if HasExtension(path, PngExtension) then SingleImage
    else if HasExtension(path, IcoExtension) then IconContainer
    else Unsupported
  }

  /** Reference definition of the suffix test, spelled out character by character. */
  predicate EndsWithLetters(path: string, dot: char, c1: string, c2: string, c3: string)
  {
    |path| >= 4 && path[|path| - 4] == dot
      && path[|path| - 3] in c1 && path[|path| - 2] in c2 && path[|path| - 1] in c3
  }

  lemma FoldsToLower(c: char, lower: char)
    requires 'a' <= lower <= 'z'
    ensures FoldAscii(c) == lower <==> c == lower || c as int == lower as int - 32
  {
  }

  lemma {:induction false} RouteForPng(path: string)
    ensures RouteFor(path) == SingleImage <==> EndsWithLetters(path, '.', "pP", "nN", "gG")
  {
    if |path| >= 4 {
      var s := path[|path| - 4..];
      EqualsIgnoringCaseIff(s, PngExtension);
      assert s[0] == path[|path| - 4] && s[1] == path[|path| - 3];
      assert s[2] == path[|path| - 2] && s[3] == path[|path| - 1];
      FoldsToLower(s[1], 'p');
      FoldsToLower(s[2], 'n');
      FoldsToLower(s[3], 'g');
    }
  }

  lemma {:induction false} RouteForIco(path: string)
    ensures RouteFor(path) == IconContainer <==>
      EndsWithLetters(path, '.', "iI", "cC", "oO") && !EndsWithLetters(path, '.', "pP", "nN", "gG")
  {
    RouteForPng(path);
    if |path| >= 4 {
      var s := path[|path| - 4..];
      EqualsIgnoringCaseIff(s, IcoExtension);
      assert s[0] == path[|path| - 4] && s[1] == path[|path| - 3];
      assert s[2] == path[|path| - 2] && s[3] == path[|path| - 1];
      FoldsToLower(s[1], 'i');
      FoldsToLower(s[2], 'c');
      FoldsToLower(s[3], 'o');
    }
  }

  /** Two paths whose last four characters agree up to ASCII case take the same route. */
  lemma {:induction false} RouteIgnoresCase(p: string, q: string)
    requires |p| == |q|
    requires forall i :: 0 <= i < |p| ==> FoldAscii(p[i]) == FoldAscii(q[i])
    ensures RouteFor(p) == RouteFor(q)
  {
    if |p| >= 4 {
      var sp, sq := p[|p| - 4..], q[|q| - 4..];
      EqualsIgnoringCaseIff(sp, PngExtension);
      EqualsIgnoringCaseIff(sq, PngExtension);
      EqualsIgnoringCaseIff(sp, IcoExtension);
      EqualsIgnoringCaseIff(sq, IcoExtension);
      assert forall i :: 0 <= i < 4 ==> sp[i] == p[|p| - 4 + i] && sq[i] == q[|q| - 4 + i];
    }
  }
}
