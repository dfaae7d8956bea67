/** The command-line front end's own logic (cmd/convert2photopainter):
    resolution selection, zero-padded numbering of batch directories and the
    output file names built from them. */
module Cli {

  // ------------------------------------------------------ decimal numerals

  predicate IsDigit(c: char)
  {
    '0' <= c <= '9'
  }

  predicate AllDigits(s: string)
  {
    forall k :: 0 <= k < |s| ==> IsDigit(s[k])
  }

  function DigitChar(d: int): (c: char)
    requires 0 <= d < 10
    ensures IsDigit(c) && c as int - '0' as int == d
  {
    (d + '0' as int) as char
  }

  /** The number a string of decimal digits denotes. */
  function ValueOf(s: string): nat
    requires AllDigits(s)
  {
    if |s| == 0 then 0 else ValueOf(s[..|s| - 1]) * 10 + (s[|s| - 1] as int - '0' as int)
  }

  function Pow10(k: nat): (p: nat)
    ensures p >= 1
  {
    if k == 0 then 1 else 10 * Pow10(k - 1)
  }

  /** `%d` of a non-negative number: the shortest digit string denoting it
      (no leading zero, so at least `10^(|s|-1)` unless it is "0"). */
  function Decimal(n: nat): (s: string)
    ensures |s| >= 1 && AllDigits(s)
    ensures ValueOf(s) == n
    ensures n < Pow10(|s|)
    ensures |s| == 1 || Pow10(|s| - 1) <= n
  {
    if n < 10 then [DigitChar(n)]
    else
      var s := Decimal(n / 10) + [DigitChar(n % 10)];
      assert s[..|s| - 1] == Decimal(n / 10);
      s
  }

  /** A leading zero does not change the number a digit string denotes. */
  lemma {:induction false} LeadingZero(s: string)
    requires AllDigits(s)
    ensures AllDigits("0" + s) && ValueOf("0" + s) == ValueOf(s)
    decreases |s|
  {
    var t := "0" + s;
    if |s| > 0 {
      assert t[..|t| - 1] == "0" + s[..|s| - 1];
      LeadingZero(s[..|s| - 1]);
    } else {
      assert t[..|t| - 1] == "";
    }
  }

  /** The numeral of `n` left-padded with zeros to at least `width`
      characters. */
  function Padded(n: nat, width: nat): (t: string)
    ensures AllDigits(t) && ValueOf(t) == n
    ensures |t| == if |Decimal(n)| < width then width else |Decimal(n)|
    ensures |Decimal(n)| >= width ==> t == Decimal(n)
  {
    if |Decimal(n)| >= width then Decimal(n)
    else
      var t := Padded(n, width - 1);
      LeadingZero(t);
      "0" + t
  }

  /** `fmt.Sprintf("%04d", n)`: the decimal numeral of `n` left-padded with
      zeros to four characters; longer numbers are written in full. */
  function Pad4(n: nat): (s: string)
    ensures AllDigits(s) && ValueOf(s) == n
    ensures |s| >= 4
    ensures n < 10000 <==> |s| == 4
    ensures n >= 10000 ==> s == Decimal(n)
  {
    var d := Decimal(n);
    assert |d| > 4 <==> Pow10(4) <= n by {
      if |d| > 4 {
        Pow10Grows(4, |d| - 1);
      } else {
        Pow10Grows(|d|, 4);
      }
    }
    assert Pow10(4) == 10000;
    Padded(n, 4)
  }

  lemma {:induction false} Pow10Grows(k: nat, m: nat)
    requires k <= m
    ensures Pow10(k) <= Pow10(m)
    decreases m
  {
    if k < m {
      Pow10Grows(k, m - 1);
    }
  }

  /** Different numbers get different padded numerals. */
  lemma Pad4Injective(a: nat, b: nat)
    requires Pad4(a) == Pad4(b)
    ensures a == b
  {
    assert ValueOf(Pad4(a)) == ValueOf(Pad4(b));
  }

  /** Small numbers are padded to four digits. */
  lemma Pad4OfOne()
    ensures Pad4(1) == "0001"
  {
    assert Decimal(1) == "1";
    assert Padded(1, 4) == "0" + Padded(1, 3) == "00" + Padded(1, 2) == "000" + Padded(1, 1) == "0001";
  }

  lemma Pad4OfFortyTwo()
    ensures Pad4(42) == "0042"
  {
    assert Decimal(42) == Decimal(4) + "2" == "42";
    assert Padded(42, 4) == "0" + Padded(42, 3) == "00" + Padded(42, 2) == "0042";
  }

  /** Numbers of five digits or more are written in full. */
  lemma Pad4OfLargeNumber()
    ensures Pad4(12345) == "12345"
  {
    assert Decimal(12) == Decimal(1) + "2";
    assert Decimal(123) == Decimal(12) + "3";
    assert Decimal(1234) == Decimal(123) + "4";
    assert Decimal(12345) == Decimal(1234) + "5";
  }

  // ------------------------------------------------------------ file names

  /** `fmt.Sprintf("%s_%04d", dirPrefix, i+1)`: the base name of the `i`-th
      (from zero) image of a directory numbered `dirPrefix`. */
  function FileNum(dirPrefix: string, i: nat): (name: string)
    ensures |name| == |dirPrefix| + 1 + |Pad4(i + 1)|
    ensures name[..|dirPrefix|] == dirPrefix && name[|dirPrefix|] == '_'
    ensures name[|dirPrefix| + 1..] == Pad4(i + 1)
  {
    dirPrefix + "_" + Pad4(i + 1)
  }

  /** In a name built from a digit-only prefix, the first underscore is the
      one right after the prefix. */
  lemma FirstUnderscore(dirPrefix: string, i: nat)
    requires AllDigits(dirPrefix)
    ensures forall k :: 0 <= k < |dirPrefix| ==> FileNum(dirPrefix, i)[k] != '_'
    ensures FileNum(dirPrefix, i)[|dirPrefix|] == '_'
  {
    var n := FileNum(dirPrefix, i);
    forall k | 0 <= k < |dirPrefix|
      ensures n[k] != '_'
    {
      assert n[k] == n[..|dirPrefix|][k] == dirPrefix[k];
    }
  }

  /** Names built from digit-only directory numbers never collide: the
      directory and the file index can be read back from the name. */
  lemma FileNumInjective(p1: string, i1: nat, p2: string, i2: nat)
    requires AllDigits(p1) && AllDigits(p2)
    requires FileNum(p1, i1) == FileNum(p2, i2)
    ensures p1 == p2 && i1 == i2
  {
    var n := FileNum(p1, i1);
    FirstUnderscore(p1, i1);
    FirstUnderscore(p2, i2);
    assert |p1| == |p2|;
    assert p1 == n[..|p1|] == p2;
    Pad4Injective(i1 + 1, i2 + 1);
  }

  /** The base names the batch loop hands to the converter, one per image
      file of a directory, in order. */
  method OutputNames(dirPrefix: string, count: nat) returns (names: seq<string>)
    ensures |names| == count
    ensures forall i :: 0 <= i < count ==> names[i] == FileNum(dirPrefix, i)
  {
    names := [];
    var i := 0;
    while i < count
      invariant 0 <= i <= count && |names| == i
      invariant forall k :: 0 <= k < i ==> names[k] == FileNum(dirPrefix, k)
    {
      var fileNum := dirPrefix + "_" + Pad4(i + 1);
      names := names + [fileNum];
      i := i + 1;
    }
  }

  /** The names of one directory's images are pairwise different. */
  lemma OutputNamesDistinct(dirPrefix: string, i: nat, k: nat)
    requires AllDigits(dirPrefix) && i != k
    ensures FileNum(dirPrefix, i) != FileNum(dirPrefix, k)
  {
    if FileNum(dirPrefix, i) == FileNum(dirPrefix, k) {
      FileNumInjective(dirPrefix, i, dirPrefix, k);
    }
  }

  // ------------------------------------------------------------ resolution

  /** The `-r` flag: "480x800" selects portrait, anything else landscape;
      a value other than the two supported ones also raises a warning. */
  method SelectResolution(resolution: string) returns (width: int, height: int, warn: bool)
    ensures (width, height) == (480, 800) <==> resolution == "480x800"
    ensures (width, height) == (800, 480) <==> resolution != "480x800"
    ensures warn <==> resolution != "480x800" && resolution != "800x480"
  {
    width, height := 800, 480;
    warn := false;
    if resolution == "480x800" {
      width, height := 480, 800;
    } else if resolution != "800x480" {
      warn := true;
    }
  }

  // ------------------------------------------------------ directory numbers

  /** No directory occurs twice in `order`. */
  ghost predicate Distinct(order: seq<string>)
  {
    forall k, m :: 0 <= k < m < |order| ==> order[k] != order[m]
  }

  /** The k-th directory of `order` has number k+1 in `dirs`. */
  ghost predicate NumberedInOrder(dirs: map<string, string>, order: seq<string>)
  {
    forall k :: 0 <= k < |order| ==> order[k] in dirs && dirs[order[k]] == Pad4(k + 1)
  }

  /** `dirs` numbers the distinct directories of `order` 1, 2, ... in that
      order, and no others. */
  ghost predicate NumberedBy(dirs: map<string, string>, order: seq<string>)
  {
    Distinct(order) && (forall d :: d in dirs <==> d in order) && NumberedInOrder(dirs, order)
  }

  lemma AppendDistinct(dirs: map<string, string>, order: seq<string>, d: string)
    requires Distinct(order) && (forall e :: e in dirs <==> e in order) && d !in dirs
    ensures Distinct(order + [d])
  {
    var order' := order + [d];
    forall k, m | 0 <= k < m < |order'|
      ensures order'[k] != order'[m]
    {
      if m == |order| {
        assert order'[k] == order[k] && order[k] in order;
      } else {
        assert order'[k] == order[k] && order'[m] == order[m];
      }
    }
  }

  lemma AppendNumbered(dirs: map<string, string>, order: seq<string>, d: string)
    requires NumberedInOrder(dirs, order) && d !in dirs
    ensures NumberedInOrder(dirs[d := Pad4(|order| + 1)], order + [d])
  {
    var dirs', order' := dirs[d := Pad4(|order| + 1)], order + [d];
    forall k | 0 <= k < |order'|
      ensures order'[k] in dirs' && dirs'[order'[k]] == Pad4(k + 1)
    {
      if k < |order| {
        assert order'[k] == order[k] != d;
        assert dirs'[order'[k]] == dirs[order[k]];
      } else {
        assert order'[k] == d && k + 1 == |order| + 1;
      }
    }
  }

  /** Numbering a new directory next keeps the numbering consistent. */
  lemma NumberedByAppend(dirs: map<string, string>, order: seq<string>, d: string)
    requires NumberedBy(dirs, order) && d !in dirs
    ensures NumberedBy(dirs[d := Pad4(|order| + 1)], order + [d])
  {
    AppendDistinct(dirs, order, d);
    AppendNumbered(dirs, order, d);
    var dirs', order' := dirs[d := Pad4(|order| + 1)], order + [d];
    forall e
      ensures e in dirs' <==> e in order'
    {
      assert e in order' <==> e in order || e == d;
    }
  }

  /** The batch-wide directory numbering: `processedDirs` maps each directory
      seen so far to its padded number, and `nextDirNum` is the number the
      next new directory gets. `order` lists the directories in the order
      they were first seen. */
  class DirNumbering {
    var processedDirs: map<string, string>
    var nextDirNum: int
    ghost var order: seq<string>

    /** The k-th directory first seen has number k+1, and no directory is
        numbered twice. */
    ghost predicate Valid()
      reads this
    {
      nextDirNum == |order| + 1 && NumberedBy(processedDirs, order)
    }

    /** The package-level initial values: no directories, counter at 1. */
    constructor ()
      ensures Valid()
      ensures processedDirs == map[] && nextDirNum == 1
    {
      processedDirs := map[];
      nextDirNum := 1;
      order := [];
    }

    /** The reset before a batch starts. */
    method StartBatch()
      modifies this
      ensures Valid()
      ensures processedDirs == map[] && nextDirNum == 1
    {
      processedDirs := map[];
      nextDirNum := 1;
      order := [];
    }

    /** `processDirPath`: the number of `inputDir`, assigning the next one
        if the directory is new. `basePath` plays no part. */
    method ProcessDirPath(inputDir: string, basePath: string) returns (num: string)
      requires Valid()
      modifies this
      ensures Valid()
      ensures old(inputDir in processedDirs) ==>
        num == old(processedDirs[inputDir]) && processedDirs == old(processedDirs) &&
        nextDirNum == old(nextDirNum) && order == old(order)
      ensures old(inputDir !in processedDirs) ==>
        num == Pad4(old(nextDirNum)) && processedDirs == old(processedDirs)[inputDir := num] &&
        nextDirNum == old(nextDirNum) + 1 && order == old(order) + [inputDir]
    {
      if inputDir in processedDirs {
        num := processedDirs[inputDir];
        return;
      }
      var dirNum := Pad4(nextDirNum);
      NumberedByAppend(processedDirs, order, inputDir);
      processedDirs := processedDirs[inputDir := dirNum];
      nextDirNum := nextDirNum + 1;
      order := order + [inputDir];
      num := dirNum;
    }
  }

  /** Distinct directories of a batch get distinct numbers. */
  lemma DirNumbersDistinct(n: DirNumbering, d1: string, d2: string)
    requires n.Valid()
    requires d1 in n.processedDirs && d2 in n.processedDirs && d1 != d2
    ensures n.processedDirs[d1] != n.processedDirs[d2]
  {
    var k1 :| 0 <= k1 < |n.order| && n.order[k1] == d1;
    var k2 :| 0 <= k2 < |n.order| && n.order[k2] == d2;
    assert ValueOf(n.processedDirs[d1]) == k1 + 1 && ValueOf(n.processedDirs[d2]) == k2 + 1;
  }

  /** Every number in use is digits only and lies in `[1, nextDirNum)`. */
  lemma DirNumbersInRange(n: DirNumbering, d: string)
    requires n.Valid() && d in n.processedDirs
    ensures AllDigits(n.processedDirs[d])
    ensures 1 <= ValueOf(n.processedDirs[d]) < n.nextDirNum
  {
    var k :| 0 <= k < |n.order| && n.order[k] == d;
  }
}
