/**
  The chordpro side of generate_path_pdf: the temporary file names, the
  argument list handed to the chordpro process, and the repair of the chord
  cells in the HTML chordpro writes (each loses one leading '*').
 */
module Typeset {
  import opened Wrappers

  // ---------------------------------------------------------------------------
  // Decimal text of integers (Python's str(int), used in f-strings)
  // ---------------------------------------------------------------------------

  function DigitChar(d: int): (c: char)
    requires 0 <= d < 10
    ensures '0' <= c <= '9'
  {
    (d + '0' as int) as char
  }

  predicate IsDigit(c: char)
  {
    '0' <= c <= '9'
  }

  /** The decimal digits of a natural number, most significant first, no leading zeros. */
  function NatString(n: nat): (s: string)
    ensures |s| > 0
    ensures forall i :: 0 <= i < |s| ==> IsDigit(s[i])
    ensures n > 0 ==> s[0] != '0'
    ensures |s| > 1 ==> s[0] != '0'
  {
    if n < 10 then [DigitChar(n)] else NatString(n / 10) + [DigitChar(n % 10)]
  }

  /** str(i): a '-' before the digits of a negative number. */
  function IntString(i: int): (s: string)
    ensures |s| > 0
    ensures s[0] == '-' <==> i < 0
    ensures i < 0 ==> |s| > 1 && s[1] != '0'
    ensures i >= 0 && |s| > 1 ==> s[0] != '0'
  {
    if i < 0 then "-" + NatString(-i) else NatString(i)
  }

  /** The value of a string of decimal digits. */
  function ParseNat(s: string): nat
    requires forall i :: 0 <= i < |s| ==> IsDigit(s[i])
  {
    if s == [] then 0
    else
      assert IsDigit(s[|s| - 1]);
      ParseNat(s[..|s| - 1]) * 10 + (s[|s| - 1] as int - '0' as int)
  }

  /** The value of an optionally '-'-signed string of decimal digits. */
  function ParseInt(s: string): int
    requires |s| > 0
    requires forall i :: (if s[0] == '-' then 1 else 0) <= i < |s| ==> IsDigit(s[i])
  {
    if s[0] == '-' then -(ParseNat(s[1..]) as int) else ParseNat(s)
  }

  lemma {:induction false} NatStringRoundTrip(n: nat)
    ensures ParseNat(NatString(n)) == n
  {
    if n >= 10 {
      var s := NatString(n);
      assert s[..|s| - 1] == NatString(n / 10);
      NatStringRoundTrip(n / 10);
    }
  }

  /** The decimal text of an integer reads back as that integer. */
  lemma IntStringRoundTrip(i: int)
    ensures ParseInt(IntString(i)) == i
  {
    if i < 0 {
      assert IntString(i)[1..] == NatString(-i);
      NatStringRoundTrip(-i);
    } else {
      NatStringRoundTrip(i);
    }
  }

  // ---------------------------------------------------------------------------
  // Temporary file names (generate_path)
  // ---------------------------------------------------------------------------

  /** Python's str.rfind for one character: the last index holding `c`, or -1. */
  function LastIndexOf(s: string, c: char): (i: int)
    ensures -1 <= i < |s|
    ensures 0 <= i ==> s[i] == c
    ensures forall j :: i < j < |s| ==> s[j] != c
  {
    if s == [] then -1
    else if s[|s| - 1] == c then |s| - 1
    else LastIndexOf(s[..|s| - 1], c)
  }

  /** The final component of a path: everything after its last '/'. */
  function FileName(path: string): (name: string)
    ensures forall j :: 0 <= j < |name| ==> name[j] != '/'
    ensures |name| <= |path| && path[|path| - |name|..] == name
    ensures |name| < |path| ==> path[|path| - |name| - 1] == '/'
  {
    var i := LastIndexOf(path, '/');
    path[i + 1..]
  }

  /** No '.' of `name` lies after position `i`. */
  predicate NoDotAfter(name: string, i: int)
  {
    forall j :: 0 <= j < |name| && i < j ==> name[j] != '.'
  }

  /** The name's last '.' is neither its first nor its last character. */
  predicate HasSuffix(name: string)
  {
    exists i :: 0 < i < |name| - 1 && name[i] == '.' && NoDotAfter(name, i)
  }

  /**
    pathlib's stem: the file name without its suffix, where the suffix is the
    name's last '.' and what follows it, provided that '.' is neither the
    name's first nor its last character.
   */
  function Stem(path: string): (stem: string)
    ensures forall j :: 0 <= j < |stem| ==> stem[j] != '/'
    ensures |stem| <= |FileName(path)| && FileName(path)[..|stem|] == stem
    ensures |stem| < |FileName(path)| ==> 0 < |stem| && FileName(path)[|stem|] == '.'
    ensures |FileName(path)| - 1 <= |stem| ==> stem == FileName(path)
    ensures NoDotAfter(FileName(path), |stem|)
    ensures |stem| < |FileName(path)| <==> HasSuffix(FileName(path))
  {
    var name := FileName(path);
    var i := LastIndexOf(name, '.');
    if 0 < i < |name| - 1 then name[..i] else name
  }

  /** generate_path: `{tempdir}/{stem of filename}{suffix}`. */
  function GeneratePath(tempdir: string, filename: string, suffix: string): (path: string)
    ensures |path| >= |tempdir| + 1 + |suffix|
    ensures path[..|tempdir| + 1] == tempdir + "/"
    ensures path[|path| - |suffix|..] == suffix
  {
    var stem := Stem(filename);
    JoinShape(tempdir, stem, suffix);
    tempdir + "/" + stem + suffix
  }

  lemma JoinShape(dir: string, stem: string, suffix: string)
    ensures (dir + "/" + stem + suffix)[..|dir| + 1] == dir + "/"
    ensures (dir + "/" + stem + suffix)[|dir| + 1 + |stem|..] == suffix
  {
  }

  /**
    The generated file lies directly in the temporary directory: between the
    directory's '/' and the suffix there is no further '/'.
   */
  lemma GeneratePathInTempdir(tempdir: string, filename: string, suffix: string, j: int)
    requires |tempdir| < j < |GeneratePath(tempdir, filename, suffix)| - |suffix|
    ensures GeneratePath(tempdir, filename, suffix)[j] != '/'
  {
    var stem := Stem(filename);
    MiddleIndex(tempdir + "/", stem, suffix, j);
  }

  lemma MiddleIndex(a: string, b: string, c: string, j: int)
    requires |a| <= j < |a| + |b|
    ensures (a + b + c)[j] == b[j - |a|]
  {
  }

  /**
    A chordpro source `dir/base.chordpro` yields the temporary name
    `tempdir/base` + suffix, whatever dots `base` itself holds.
   */
  lemma GeneratePathOfChordPro(tempdir: string, dir: string, base: string, suffix: string)
    requires |base| > 0
    requires forall j :: 0 <= j < |base| ==> base[j] != '/'
    ensures GeneratePath(tempdir, dir + "/" + base + ".chordpro", suffix) == tempdir + "/" + base + suffix
  {
    var path := dir + "/" + base + ".chordpro";
    var slash := |dir|;
    assert path[slash] == '/';
    assert forall j :: slash < j < |path| ==> path[j] != '/';
    assert LastIndexOf(path, '/') == slash by {
      LastIndexOfIsLast(path, '/', slash);
    }
    var name := base + ".chordpro";
    assert FileName(path) == name;
    assert name[|base|] == '.';
    assert forall j :: |base| < j < |name| ==> name[j] != '.';
    LastIndexOfIsLast(name, '.', |base|);
    assert name[..|base|] == base;
  }

  /** The last occurrence is found: an index holding `c` with no `c` after it is the rfind result. */
  lemma LastIndexOfIsLast(s: string, c: char, k: int)
    requires 0 <= k < |s| && s[k] == c
    requires forall j :: k < j < |s| ==> s[j] != c
    ensures LastIndexOf(s, c) == k
  {
  }

  // ---------------------------------------------------------------------------
  // The chordpro command line (generate_path_pdf, lines 60-65)
  // ---------------------------------------------------------------------------

  /** The HTML file chordpro writes for the song at catalog row `index`. */
  function HtmlFilename(tempdir: string, chordpro: string, index: int): (html: string)
    ensures |html| >= |tempdir| + 8 && html[|html| - 5..] == ".html"
    ensures html[..|tempdir| + 1] == tempdir + "/"
  {
    GeneratePath(tempdir, chordpro, "_" + IntString(index) + ".html")
  }

  /**
    Songs of the same source at different catalog rows get different HTML
    files, because the row position is part of the name.
   */
  lemma HtmlFilenameInjective(tempdir: string, chordpro: string, i: int, j: int)
    requires HtmlFilename(tempdir, chordpro, i) == HtmlFilename(tempdir, chordpro, j)
    ensures i == j
  {
    var prefix := tempdir + "/" + Stem(chordpro) + "_";
    HtmlFilenameShape(tempdir, chordpro, i);
    HtmlFilenameShape(tempdir, chordpro, j);
    MiddleEqual(prefix, IntString(i), IntString(j), ".html");
    IntStringRoundTrip(i);
    IntStringRoundTrip(j);
  }

  lemma HtmlFilenameShape(tempdir: string, chordpro: string, i: int)
    ensures HtmlFilename(tempdir, chordpro, i) ==
      (tempdir + "/" + Stem(chordpro) + "_") + IntString(i) + ".html"
  {
    var x := tempdir + "/" + Stem(chordpro);
    var z := IntString(i);
    assert HtmlFilename(tempdir, chordpro, i) == x + ("_" + z + ".html");
    Regroup(x, "_", z, ".html");
  }

  lemma Regroup(x: string, y: string, z: string, w: string)
    ensures x + (y + z + w) == (x + y) + z + w
  {
  }

  /** Equal strings with the same prefix and suffix have the same middle. */
  lemma MiddleEqual(p: string, a: string, b: string, s: string)
    requires p + a + s == p + b + s
    ensures a == b
  {
    assert |a| == |b|;
    assert a == (p + a + s)[|p|..|p| + |a|];
    assert b == (p + b + s)[|p|..|p| + |b|];
  }

  /** The option that carries a non-zero transpose amount. */
  function TransposeOption(amount: int): (option: string)
    ensures |option| > 12 && option[..12] == "--transpose="
    ensures option[12] == '-' <==> amount < 0
  {
    "--transpose=" + IntString(amount)
  }

  /**
    The argument list of the chordpro process: the program, HTML output to the
    song's temporary file, no chord diagrams, lenient parsing, then
    `--transpose=N` only when a transpose was given and is not 0, and last the
    source path.
   */
  method TypesetArgs(chordpro: string, transpose: Option<int>, tempdir: string, index: int)
    returns (args: seq<string>)
    ensures |args| == 7 <==> transpose.Some? && transpose.value != 0
    ensures |args| == 6 || |args| == 7
    ensures args[..5] == ["chordpro", "--generate=HTML", "--output=" + HtmlFilename(tempdir, chordpro, index),
                          "--diagrams=none", "--no-strict"]
    ensures args[|args| - 1] == chordpro
    ensures |args| == 7 ==> args[5] == TransposeOption(transpose.value)
  {
    var htmlFilename := HtmlFilename(tempdir, chordpro, index);
    var fixed := ["chordpro", "--generate=HTML", "--output=" + htmlFilename, "--diagrams=none", "--no-strict"];
    args := fixed;
    if transpose.Some? && transpose.value != 0 {
      AppendKeepsPrefix(args, [TransposeOption(transpose.value)], 5);
      args := args + [TransposeOption(transpose.value)];
    }
    AppendKeepsPrefix(args, [chordpro], 5);
    args := args + [chordpro];
  }

  lemma AppendKeepsPrefix(a: seq<string>, b: seq<string>, n: nat)
    requires n <= |a|
    ensures (a + b)[..n] == a[..n]
  {
  }

  /** The transpose option names its amount: the text after `--transpose=` reads back as it. */
  lemma TransposeOptionRoundTrip(amount: int)
    ensures |TransposeOption(amount)| > 12
    ensures TransposeOption(amount)[..12] == "--transpose="
    ensures ParseInt(TransposeOption(amount)[12..]) == amount
  {
    assert TransposeOption(amount)[12..] == IntString(amount);
    IntStringRoundTrip(amount);
  }

  // ---------------------------------------------------------------------------
  // Chord cell repair (generate_path_pdf, lines 76-81)
  // ---------------------------------------------------------------------------

  /** One cell's text after repair: a leading '*' is dropped, once. */
  function StripMarker(cell: string): (fixed: string)
    ensures |cell| > 0 && cell[0] == '*' ==> "*" + fixed == cell
    ensures !(|cell| > 0 && cell[0] == '*') ==> fixed == cell
  {
    if |cell| > 0 && cell[0] == '*' then cell[1..] else cell
  }

  /** Every cell of a row repaired, in the same order. */
  function StripAll(cells: seq<string>): (fixed: seq<string>)
    ensures |fixed| == |cells|
    ensures forall i :: 0 <= i < |cells| ==> fixed[i] == StripMarker(cells[i])
  {
    seq(|cells|, i requires 0 <= i < |cells| => StripMarker(cells[i]))
  }

  /** Repairing twice equals repairing once exactly when the cell does not start with "**". */
  lemma StripTwiceIff(cell: string)
    ensures StripMarker(StripMarker(cell)) == StripMarker(cell) <==>
      !(|cell| >= 2 && cell[0] == '*' && cell[1] == '*')
  {
  }

  /** The repair is not idempotent: "**G" loses one star per pass. */
  lemma StripNotIdempotent()
    ensures StripMarker("**G") == "*G"
    ensures StripMarker(StripMarker("**G")) == "G"
  {
  }

  /** The cells of one chords row rewritten in place, left to right. */
  method RepairChordCells(cells: array<string>)
    modifies cells
    ensures cells[..] == StripAll(old(cells[..]))
  {
    var j := 0;
    while j < cells.Length
      invariant 0 <= j <= cells.Length
      invariant forall k :: 0 <= k < j ==> cells[k] == StripMarker(old(cells[k]))
      invariant forall k :: j <= k < cells.Length ==> cells[k] == old(cells[k])
    {
      var chord := cells[j];
      if |chord| > 0 && chord[0] == '*' {
        cells[j] := chord[1..];
      }
      j := j + 1;
    }
  }

  /** Every chords row of the document repaired in place, rows in document order. */
  method RepairChordTable(rows: seq<array<string>>)
    requires forall i, j :: 0 <= i < j < |rows| ==> rows[i] != rows[j]
    modifies set i | 0 <= i < |rows| :: rows[i]
    ensures forall i :: 0 <= i < |rows| ==> rows[i][..] == StripAll(old(rows[i][..]))
  {
    var r := 0;
    while r < |rows|
      invariant 0 <= r <= |rows|
      invariant forall i :: 0 <= i < r ==> rows[i][..] == StripAll(old(rows[i][..]))
      invariant forall i :: r <= i < |rows| ==> rows[i][..] == old(rows[i][..])
    {
      RepairChordCells(rows[r]);
      r := r + 1;
    }
  }
}
