/**
 The names of rotated log files, from webrtc/base/filerotatingstream.cc.  The
 index is padded with zeros so that the names sort like the indices, but the
 padding counts one digit per ten files, not per power of ten.  Sorting works
 all the same.
 */
module LogNames {
  import opened Decimals
  import opened StringOrder

  /** The zeros in front of an index. */
  function Padding(k: nat): (s: string)
    ensures |s| == k && forall i :: 0 <= i < k ==> s[i] == '0'
  {
    seq(k, _ => '0')
  }

  /** One digit per started ten. */
  function NumDigits(index: nat): nat {
    index / 10 + 1
  }

  lemma NumDigitsMonotone(i: nat, j: nat)
    requires i <= j
    ensures NumDigits(i) <= NumDigits(j)
  {
  }

  function FileName(stem: string, index: nat, numFiles: nat): string
    requires index < numFiles
  {
    NumDigitsMonotone(index, numFiles - 1);
    stem + "_" + Padding(NumDigits(numFiles - 1) - NumDigits(index)) + Decimal(index)
  }

  /** The stem, an underscore, zeros for the missing digits, and the index in decimal. */
  lemma NameParts(stem: string, index: nat, numFiles: nat)
    requires index < numFiles
    ensures var name, digits := FileName(stem, index, numFiles), Decimal(index);
            && |name| == |stem| + 1 + ((numFiles - 1) / 10 - index / 10) + |digits|
            && name[..|stem|] == stem && name[|stem|] == '_' && name[|name| - |digits|..] == digits
            && forall i :: |stem| < i < |name| - |digits| ==> name[i] == '0'
  {
    hide Decimal;
    NumDigitsMonotone(index, numFiles - 1);
  }

  lemma KnownNames()
    ensures FileName("log", 2, 3) == "log_2" && FileName("log", 3, 11) == "log_03" && FileName("log", 10, 11) == "log_10"
  {
    assert Decimal(10) == Decimal(1) + [Digit(0)];
    assert Padding(0) == "" && Padding(1) == "0";
  }

  /** Builds the name with a padding loop. */
  method GetFilePath(stem: string, index: nat, numFiles: nat) returns (path: string)
    requires index < numFiles
    ensures path == FileName(stem, index, numFiles)
  {
    NumDigitsMonotone(index, numFiles - 1);
    var maxDigits := (numFiles - 1) / 10 + 1;
    var numDigits := index / 10 + 1;
    var padding := maxDigits - numDigits;
    path := stem + "_";
    for i := 0 to padding
      invariant path == stem + "_" + Padding(i)
    {
      path := path + "0";
    }
    path := path + Decimal(index);
  }

  // ------------------------------------------------------------------
  // Names sort like indices
  // ------------------------------------------------------------------

  lemma SameTenSorted(i: nat, j: nat)
    requires i < j && i / 10 == j / 10
    ensures Before(Decimal(i), Decimal(j))
  {
    if i < 10 {
      assert Decimal(i) == [Digit(i)] && Decimal(j) == [Digit(j)];
    } else {
      BeforeAfterPrefix(Decimal(i / 10), [Digit(i % 10)], [Digit(j % 10)]);
    }
  }

  /** More padding sorts first, against a name that starts with a non-zero digit. */
  lemma {:induction false} PaddingSorted(k: nat, m: nat, a: string, b: string)
    requires k > m && b != [] && b[0] > '0'
    ensures Before(Padding(k) + a, Padding(m) + b)
  {
    assert Padding(k) + a == Padding(m) + (Padding(k - m) + a);
    BeforeAfterPrefix(Padding(m), Padding(k - m) + a, b);
  }

  /** For any number of files, a smaller index has the smaller name. */
  lemma NamesSortLikeIndices(stem: string, i: nat, j: nat, numFiles: nat)
    requires i < j < numFiles
    ensures Before(FileName(stem, i, numFiles), FileName(stem, j, numFiles))
  {
    NumDigitsMonotone(i, j);
    NumDigitsMonotone(j, numFiles - 1);
    var m := NumDigits(numFiles - 1);
    var x := Padding(m - NumDigits(i)) + Decimal(i);
    var y := Padding(m - NumDigits(j)) + Decimal(j);
    assert FileName(stem, i, numFiles) == (stem + "_") + x;
    assert FileName(stem, j, numFiles) == (stem + "_") + y;
    BeforeAfterPrefix(stem + "_", x, y);
    if i / 10 == j / 10 {
      SameTenSorted(i, j);
      BeforeAfterPrefix(Padding(m - NumDigits(i)), Decimal(i), Decimal(j));
    } else {
      DecimalFirst(j);
      PaddingSorted(m - NumDigits(i), m - NumDigits(j), Decimal(i), Decimal(j));
    }
  }

  function FileNames(stem: string, numFiles: nat): (names: seq<string>)
    ensures |names| == numFiles
    ensures forall i :: 0 <= i < numFiles ==> names[i] == FileName(stem, i, numFiles)
  {
    seq(numFiles, i requires 0 <= i < numFiles => FileName(stem, i, numFiles))
  }

  lemma FileNamesIncreasing(stem: string, numFiles: nat)
    ensures Increasing(FileNames(stem, numFiles))
  {
    forall i, j | 0 <= i < j < numFiles
      ensures Before(FileNames(stem, numFiles)[i], FileNames(stem, numFiles)[j])
    {
      NamesSortLikeIndices(stem, i, j, numFiles);
    }
  }
}
