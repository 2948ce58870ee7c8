/** The names of the log files, and why sorting them by name sorts them by age. */
module LogNames {
  import opened Strings

  function Digit(d: nat): char
    requires d < 10
  {
    '0' + d as char
  }

  /** A number in decimal digits. */
  function Decimal(n: nat): (s: string)
    ensures |s| > 0
  {
    if n < 10 then [Digit(n)] else Decimal(n / 10) + [Digit(n % 10)]
  }

  function Padding(n: nat): string { seq(n, _ => '0') }

  /** The name of the file at an index: zeros are added as if a number had one digit more for every
      ten that it counts. */
  function Name(prefix: string, index: nat, numFiles: nat): string
    requires index < numFiles
  {
    prefix + "_" + Padding((numFiles - 1) / 10 - index / 10) + Decimal(index)
  }

  function Names(prefix: string, numFiles: nat): (names: seq<string>)
    ensures |names| == numFiles
  {
    seq(numFiles, i requires 0 <= i < numFiles => Name(prefix, i, numFiles))
  }

  function DigitValue(c: char): nat { if '0' <= c <= '9' then (c - '0') as nat else 0 }

  function Number(s: string): nat {
    if s == [] then 0 else 10 * Number(s[..|s| - 1]) + DigitValue(s[|s| - 1])
  }

  /** The digits of a number denote it, without a zero in front. */
  lemma {:induction false} DecimalDenotes(n: nat)
    ensures forall c | c in Decimal(n) :: '0' <= c <= '9'
    ensures Number(Decimal(n)) == n && (n > 0 ==> Decimal(n)[0] != '0')
  {
    if n >= 10 {
      DecimalDenotes(n / 10);
      assert Decimal(n)[..|Decimal(n)| - 1] == Decimal(n / 10);
    }
  }

  /** With at most ten files the names end in a digit; with twelve, the first ten get a zero more. */
  lemma SomeNames(prefix: string)
    ensures Name(prefix, 0, 3) == prefix + "_0" && Name(prefix, 2, 3) == prefix + "_2"
    ensures Name(prefix, 7, 12) == prefix + "_07" && Name(prefix, 11, 12) == prefix + "_11"
  {
    assert Padding(0) == "" && Padding(1) == "0";
    assert Decimal(11) == Decimal(1) + ['1'];
  }

  // ---------------------------------------------------------------- the names are in order

  lemma {:induction false} FirstDigit(n: nat)
    requires n > 0
    ensures Decimal(n)[0] > '0'
  {
    if n >= 10 {
      FirstDigit(n / 10);
    }
  }

  /** Everything in a name but its last digit. */
  function Stem(prefix: string, index: nat, numFiles: nat): string
    requires index < numFiles
  {
    prefix + "_" + Padding((numFiles - 1) / 10 - index / 10) + if index < 10 then [] else Decimal(index / 10)
  }

  lemma NameIsStem(prefix: string, index: nat, numFiles: nat)
    requires index < numFiles
    ensures Name(prefix, index, numFiles) == Stem(prefix, index, numFiles) + [Digit(index % 10)]
  {
    if index >= 10 {
      var p := prefix + "_" + Padding((numFiles - 1) / 10 - index / 10);
      assert p + (Decimal(index / 10) + [Digit(index % 10)]) == p + Decimal(index / 10) + [Digit(index % 10)];
    }
  }

  lemma SameStem(stem: string, c: char, d: char)
    requires c < d
    ensures Less(stem + [c], stem + [d])
  {
    assert SmallerAt(stem + [c], stem + [d], |stem|);
  }

  lemma MorePadding(head: string, a: string, b: string)
    requires a != [] && b != [] && a[0] < b[0]
    ensures Less(head + a, head + b)
  {
    assert SmallerAt(head + a, head + b, |head|);
  }

  lemma SplitPadding(head: string, n: nat, m: nat, tail: string)
    requires m < n
    ensures head + Padding(n) + tail == head + Padding(m) + (Padding(n - m) + tail)
  {
  }

  /** Newer files come first in the order of their names. */
  lemma NamesInOrder(prefix: string, i: nat, j: nat, numFiles: nat)
    requires i < j < numFiles
    ensures Less(Name(prefix, i, numFiles), Name(prefix, j, numFiles))
  {
    if i / 10 == j / 10 {
      NameIsStem(prefix, i, numFiles);
      NameIsStem(prefix, j, numFiles);
      SameStem(Stem(prefix, i, numFiles), Digit(i % 10), Digit(j % 10));
    } else {
      var n, m := (numFiles - 1) / 10 - i / 10, (numFiles - 1) / 10 - j / 10;
      FirstDigit(j);
      SplitPadding(prefix + "_", n, m, Decimal(i));
      MorePadding(prefix + "_" + Padding(m), Padding(n - m) + Decimal(i), Decimal(j));
    }
  }

  /** However the directory lists them, sorting the files 0 to count - 1 by name puts the i-th
      newest at i. */
  lemma SortedListing(prefix: string, numFiles: nat, count: nat, listing: seq<string>)
    requires count <= numFiles && Sorted(listing)
    requires forall name :: name in listing <==> name in Names(prefix, numFiles)[..count]
    ensures listing == Names(prefix, numFiles)[..count]
  {
    var names := Names(prefix, numFiles)[..count];
    forall i, j | 0 <= i < j < |names| ensures Less(names[i], names[j]) {
      NamesInOrder(prefix, i, j, numFiles);
    }
    SortedUnique(listing, names);
  }

  lemma NamesDistinct(prefix: string, numFiles: nat, i: nat, j: nat)
    requires i < j < numFiles
    ensures Names(prefix, numFiles)[i] != Names(prefix, numFiles)[j]
  {
    NamesInOrder(prefix, i, j, numFiles);
    if Name(prefix, i, numFiles) == Name(prefix, j, numFiles) {
      LessAsymmetric(Name(prefix, i, numFiles), Name(prefix, j, numFiles));
    }
  }

  /** Building one name. */
  method GetFilePath(prefix: string, index: nat, numFiles: nat) returns (name: string)
    requires index < numFiles
    ensures name == Name(prefix, index, numFiles)
  {
    var maxDigits, numDigits := (numFiles - 1) / 10 + 1, index / 10 + 1;
    assert numDigits <= maxDigits;
    var padding := maxDigits - numDigits;
    name := prefix + "_";
    for i := 0 to padding
      invariant name == prefix + "_" + Padding(i)
    {
      name := name + "0";
      assert Padding(i + 1) == Padding(i) + "0";
    }
    name := name + Decimal(index);
  }
}
