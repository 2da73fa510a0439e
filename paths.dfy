/** The output-name derivation of `annotate_path` (lines 137-139): the extension as
    `os.path.splitext` finds it on a POSIX system, replaced by `.txt` with `str.replace`,
    joined to the output directory with `os.path.join`. */
module Paths {

  /** `s.rfind(c)`: the last index of `c` in `s`, or -1. */
  function RFind(s: string, c: char): (i: int)
    ensures -1 <= i < |s|
    ensures i >= 0 ==> s[i] == c
    ensures forall k :: i < k < |s| ==> s[k] != c
  {
    if s == [] then -1
    else if s[|s| - 1] == c then |s| - 1
    else RFind(s[..|s| - 1], c)
  }

  /** Whether `p[lo..hi]` holds a character other than a dot. */
  predicate HasNonDot(p: string, lo: int, hi: int)
    requires 0 <= lo <= hi <= |p|
  {
    exists k :: lo <= k < hi && p[k] != '.'
  }

  /** `os.path.splitext(p)` with separator '/': the extension starts at the last dot after the
      last '/', provided something other than dots precedes that dot in the last component;
      otherwise it is empty. */
  function SplitExt(p: string): (r: (string, string))
    ensures r.0 + r.1 == p
    ensures r.1 == [] || (r.1[0] == '.' && forall k :: 0 < k < |r.1| ==> r.1[k] != '.' && r.1[k] != '/')
    ensures r.1 != [] ==> exists k :: 0 <= k < |r.0| && r.0[k] != '.' && forall j :: k <= j < |r.0| ==> r.0[j] != '/'
  {
    var sepIndex := RFind(p, '/');
    var dotIndex := RFind(p, '.');
    if dotIndex > sepIndex && HasNonDot(p, sepIndex + 1, dotIndex) then
      var k :| sepIndex + 1 <= k < dotIndex && p[k] != '.';
      assert p[..dotIndex][k] == p[k];
      (p[..dotIndex], p[dotIndex..])
    else (p, [])
  }

  /** A name without any dot has no extension. */
  lemma SplitExtNoDot(p: string)
    requires forall k :: 0 <= k < |p| ==> p[k] != '.'
    ensures SplitExt(p) == (p, [])
  {
  }

  /** A name with no '/', a stem holding something other than dots, and a final dot: the
      extension is the dot and what follows it. */
  lemma SplitExtOfName(stem: string, e: string)
    requires forall k :: 0 <= k < |stem| ==> stem[k] != '/'
    requires exists k :: 0 <= k < |stem| && stem[k] != '.'
    requires forall k :: 0 <= k < |e| ==> e[k] != '.' && e[k] != '/'
    ensures SplitExt(stem + "." + e) == (stem, "." + e)
  {
    var p := stem + "." + e;
    assert p[|stem|] == '.';
    assert forall k :: |stem| < k < |p| ==> p[k] == e[k - |stem| - 1];
    assert RFind(p, '.') == |stem|;
    assert RFind(p, '/') == -1;
    var k :| 0 <= k < |stem| && stem[k] != '.';
    assert p[k] == stem[k];
    assert HasNonDot(p, 0, |stem|);
    assert p[..|stem|] == stem && p[|stem|..] == "." + e;
  }

  /** Leading dots do not start an extension: ".bashrc" has none. */
  lemma SplitExtDotfile()
    ensures SplitExt(".bashrc") == (".bashrc", [])
  {
    var p := ".bashrc";
    assert p[0] == '.' && forall k :: 0 < k < |p| ==> p[k] != '.';
    assert RFind(p, '.') == 0;
  }

  /** Whether `t` occurs in `s` at index `i`. */
  predicate OccursAt(s: string, t: string, i: int) {
    0 <= i && i + |t| <= |s| && s[i..i + |t|] == t
  }

  /** `r` with a copy of `sep` before each character of `s` and one at the end: what
      `s.replace("", sep)` gives. */
  function InsertEverywhere(s: string, sep: string): (r: string)
    ensures |r| == |s| + (|s| + 1) * |sep|
  {
    if s == [] then sep else sep + [s[0]] + InsertEverywhere(s[1..], sep)
  }

  /** One more slot of width `k` starts `k` places further on. */
  lemma NextSlot(j: int, k: int)
    ensures (j + 1) * k == j * k + k
  {
  }

  /** The `m`-th character of the `i`-th copy of `sep` in `InsertEverywhere(s, sep)`. */
  lemma {:induction false} InsertEverywhereCopyCharAt(s: string, sep: string, i: nat, m: nat)
    requires i <= |s| && m < |sep|
    ensures var r := InsertEverywhere(s, sep); var at := i * (|sep| + 1) + m;
      at < |r| && r[at] == sep[m]
    decreases |s|
  {
    var r := InsertEverywhere(s, sep);
    var k := |sep| + 1;
    if s == [] {
      assert r == sep;
    } else {
      var rest := InsertEverywhere(s[1..], sep);
      var head := sep + [s[0]];
      assert |head| == k && r == head + rest;
      if i == 0 {
        assert r[m] == head[m];
      } else {
        InsertEverywhereCopyCharAt(s[1..], sep, i - 1, m);
        NextSlot(i - 1, k);
        var at := (i - 1) * k + m;
        assert r[k + at] == rest[at];
      }
    }
  }

  /** The `i`-th copy of `sep` in `InsertEverywhere(s, sep)` starts at `i * (|sep| + 1)`. */
  lemma InsertEverywhereCopyAt(s: string, sep: string, i: nat)
    requires i <= |s|
    ensures var r := InsertEverywhere(s, sep); var at := i * (|sep| + 1);
      at + |sep| <= |r| && r[at..at + |sep|] == sep
  {
    var r := InsertEverywhere(s, sep);
    var at := i * (|sep| + 1);
    if |sep| > 0 {
      InsertEverywhereCopyCharAt(s, sep, i, |sep| - 1);
    } else {
      assert at == i;
    }
    forall m | 0 <= m < |sep| ensures r[at..at + |sep|][m] == sep[m] {
      InsertEverywhereCopyCharAt(s, sep, i, m);
    }
  }

  /** The `i`-th character of `s` in `InsertEverywhere(s, sep)` follows the `i`-th copy. */
  lemma {:induction false} InsertEverywhereCharAt(s: string, sep: string, i: nat)
    requires i < |s|
    ensures var r := InsertEverywhere(s, sep); var at := i * (|sep| + 1) + |sep|;
      at < |r| && r[at] == s[i]
    decreases |s|
  {
    var r := InsertEverywhere(s, sep);
    var k := |sep| + 1;
    var rest := InsertEverywhere(s[1..], sep);
    var head := sep + [s[0]];
    assert |head| == k && r == head + rest;
    if i == 0 {
      assert r[|sep|] == head[|sep|];
    } else {
      InsertEverywhereCharAt(s[1..], sep, i - 1);
      NextSlot(i - 1, k);
      var at := (i - 1) * k + |sep|;
      assert r[k + at] == rest[at];
    }
  }

  /** Where the copies of `sep` sit in `InsertEverywhere(s, sep)`: with `k` the width of one
      copy plus its character, a copy starts at every multiple of `k` up to `|s| * k`. */
  lemma InsertEverywhereCopies(s: string, sep: string)
    ensures var r := InsertEverywhere(s, sep); var k := |sep| + 1;
      forall i :: 0 <= i <= |s| ==> i * k + |sep| <= |r| && r[i * k..i * k + |sep|] == sep
  {
    var r := InsertEverywhere(s, sep);
    var k := |sep| + 1;
    forall i | 0 <= i <= |s| ensures i * k + |sep| <= |r| && r[i * k..i * k + |sep|] == sep {
      InsertEverywhereCopyAt(s, sep, i);
    }
  }

  /** The characters of `s` in `InsertEverywhere(s, sep)`: the `i`-th one follows the
      `i`-th copy of `sep`. */
  lemma InsertEverywhereChars(s: string, sep: string)
    ensures var r := InsertEverywhere(s, sep); var k := |sep| + 1;
      forall i :: 0 <= i < |s| ==> i * k + |sep| < |r| && r[i * k + |sep|] == s[i]
  {
    forall i | 0 <= i < |s| {
      InsertEverywhereCharAt(s, sep, i);
    }
  }

  /** `s.replace(t, r)`: every occurrence of `t`, scanning left to right without overlap,
      replaced by `r`; an empty `t` matches before every character and at the end. */
  function Replace(s: string, t: string, r: string): string
    decreases |s|
  {
    if t == [] then InsertEverywhere(s, r)
    else if OccursAt(s, t, 0) then r + Replace(s[|t|..], t, r)
    else if s == [] then []
    else [s[0]] + Replace(s[1..], t, r)
  }

  /** A string without occurrences of `t` has none after its first character either. */
  lemma AbsentInTail(s: string, t: string)
    requires s != []
    requires forall i :: !OccursAt(s, t, i)
    ensures forall i :: !OccursAt(s[1..], t, i)
  {
    forall i ensures !OccursAt(s[1..], t, i) {
      if 0 <= i && i + |t| <= |s[1..]| {
        assert s[1..][i..i + |t|] == s[i + 1..i + 1 + |t|];
        assert !OccursAt(s, t, i + 1);
      }
    }
  }

  /** Nothing changes where `t` does not occur. */
  lemma {:induction false} ReplaceAbsent(s: string, t: string, r: string)
    requires t != []
    requires forall i :: !OccursAt(s, t, i)
    ensures Replace(s, t, r) == s
    decreases |s|
  {
    if s != [] {
      AbsentInTail(s, t);
      assert !OccursAt(s, t, 0);
      assert Replace(s, t, r) == [s[0]] + Replace(s[1..], t, r);
      ReplaceAbsent(s[1..], t, r);
      assert [s[0]] + s[1..] == s;
    }
  }

  /** When `t` occurs in `stem + t` only at the end, the replacement swaps that last `t`. */
  lemma {:induction false} ReplaceAtEndOnly(stem: string, t: string, r: string)
    requires t != []
    requires forall i :: 0 <= i < |stem| ==> !OccursAt(stem + t, t, i)
    ensures Replace(stem + t, t, r) == stem + r
    decreases |stem|
  {
    var s := stem + t;
    if stem == [] {
      assert s == t && s[|t|..] == [];
      assert OccursAt(s, t, 0);
    } else {
      assert !OccursAt(s, t, 0);
      assert s[1..] == stem[1..] + t;
      forall i | 0 <= i < |stem[1..]| ensures !OccursAt(stem[1..] + t, t, i) {
        if i + |t| <= |s[1..]| {
          assert s[1..][i..i + |t|] == s[i + 1..i + 1 + |t|];
          assert !OccursAt(s, t, i + 1);
        }
      }
      ReplaceAtEndOnly(stem[1..], t, r);
      assert Replace(s, t, r) == [stem[0]] + (stem[1..] + r);
      assert [stem[0]] + (stem[1..] + r) == stem + r;
    }
  }

  /** An extension (a dot and no further dot) that does not occur inside the stem occurs in
      the name only at its end: an occurrence cannot straddle the boundary. */
  lemma ExtensionOccursOnlyAtEnd(stem: string, ext: string)
    requires ext != [] && ext[0] == '.' && forall k :: 0 < k < |ext| ==> ext[k] != '.'
    requires forall i :: !OccursAt(stem, ext, i)
    ensures forall i :: 0 <= i < |stem| ==> !OccursAt(stem + ext, ext, i)
  {
    var s := stem + ext;
    forall i | 0 <= i < |stem| ensures !OccursAt(s, ext, i) {
      if i + |ext| <= |stem| {
        assert s[i..i + |ext|] == stem[i..i + |ext|];
        assert !OccursAt(stem, ext, i);
      } else {
        var j := |stem| - i;
        assert 0 < j < |ext|;
        assert s[i..i + |ext|][j] == s[|stem|] == '.';
        assert ext[j] != '.';
      }
    }
  }

  /** `os.path.join(a, b)` on POSIX: an absolute `b` replaces `a`; otherwise `b` follows `a`,
      with a '/' in between unless `a` is empty or already ends in one. */
  function Join(a: string, b: string): string
  {
    if |b| > 0 && b[0] == '/' then b
    else if a == [] || a[|a| - 1] == '/' then a + b
    else a + "/" + b
  }

  /** The joined path ends with the name; a relative name keeps the directory in front,
      with exactly one '/' added between them unless the directory is empty or already ends
      in '/', and an absolute name replaces it. */
  lemma JoinShape(a: string, b: string)
    ensures var r := Join(a, b);
      |b| <= |r| && r[|r| - |b|..] == b &&
      (!(|b| > 0 && b[0] == '/') ==> |a| <= |r| && r[..|a|] == a) &&
      (|b| > 0 && b[0] == '/' ==> r == b) &&
      (!(|b| > 0 && b[0] == '/') ==>
        |r| == |a| + |b| + (if a == [] || a[|a| - 1] == '/' then 0 else 1) &&
        forall k :: |a| <= k < |r| - |b| ==> r[k] == '/')
  {
  }

  /** Lines 137-139: the output path of an input file name. */
  function OutFilename(outPath: string, filename: string): string
  {
    var ext := SplitExt(filename).1;
    Join(outPath, Replace(filename, ext, ".txt"))
  }

  /** For an ordinary image name, the extension is swapped for `.txt` and the result is
      placed in the output directory. */
  lemma OutFilenameOfImage(outPath: string, stem: string, e: string)
    requires forall k :: 0 <= k < |stem| ==> stem[k] != '/'
    requires exists k :: 0 <= k < |stem| && stem[k] != '.'
    requires forall k :: 0 <= k < |e| ==> e[k] != '.' && e[k] != '/'
    requires forall i :: !OccursAt(stem, "." + e, i)
    ensures OutFilename(outPath, stem + "." + e) == Join(outPath, stem + ".txt")
  {
    SplitExtOfName(stem, e);
    var ext := "." + e;
    assert stem + "." + e == stem + ext;
    ExtensionOccursOnlyAtEnd(stem, ext);
    ReplaceAtEndOnly(stem, ext, ".txt");
  }

  /** "img1.png" in "out" gives "out/img1.txt". */
  lemma OutFilenameExample()
    ensures OutFilename("out", "img1.png") == "out/img1.txt"
  {
    var stem := "img1";
    forall i ensures !OccursAt(stem, ".png", i) {
      if 0 <= i && i + 4 <= |stem| {
        assert i == 0;
        assert stem[i..i + 4][0] == 'i';
      }
    }
    assert stem[0] != '.';
    assert "png"[0] != '.' && "png"[1] != '.' && "png"[2] != '.';
    OutFilenameOfImage("out", stem, "png");
    assert stem + "." + "png" == "img1.png";
    assert Join("out", stem + ".txt") == "out/img1.txt";
  }

  /** As written, every copy of the extension is replaced, not only the last one. */
  lemma RepeatedExtensionIsReplacedTwice()
    ensures SplitExt("a.png.png") == ("a.png", ".png")
    ensures OutFilename("out", "a.png.png") == "out/a.txt.txt"
  {
    var s := "a.png.png";
    assert s[5] == '.' && forall k :: 5 < k < |s| ==> s[k] != '.';
    assert RFind(s, '.') == 5;
    assert forall k :: 0 <= k < |s| ==> s[k] != '/';
    assert RFind(s, '/') == -1;
    assert s[0] != '.';
    assert HasNonDot(s, 0, 5);
    assert s[..5] == "a.png" && s[5..] == ".png";
    assert !OccursAt(s, ".png", 0);
    var t := s[1..];
    assert t == ".png.png";
    assert OccursAt(t, ".png", 0);
    assert t[4..] == ".png";
    assert OccursAt(".png", ".png", 0) && ".png"[4..] == [];
  }

  /** As written, a name without an extension gets `.txt` inserted around every character,
      because replacing the empty string matches everywhere. */
  lemma NoExtensionIsReplacedEverywhere()
    ensures OutFilename("out", "ab") == "out/.txta.txtb.txt"
  {
    SplitExtNoDot("ab");
    assert "ab"[1..] == "b" && "b"[1..] == [];
    assert InsertEverywhere("b", ".txt") == ".txtb.txt";
    assert InsertEverywhere("ab", ".txt") == ".txta.txtb.txt";
    assert Replace("ab", [], ".txt") == ".txta.txtb.txt";
  }
}
