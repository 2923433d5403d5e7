/** Helpers shared by the benchmarks: transposition flags and their string
    form, constant-filled vectors, type names, and the splitting of a
    parameter file into comma-separated records. Reading the file itself is
    abstracted into the sequence of its lines. */
module BenchUtils {
  import opened ScalarTypes

  datatype Transposition = Normal | Transposed | Conjugate

  /** `possible_transpositions`: every transposition, once each, in
      declaration order. */
  const PossibleTranspositions: seq<Transposition> := [Normal, Transposed, Conjugate]

  lemma PossibleTranspositionsComplete(t: Transposition)
    ensures t in PossibleTranspositions
    ensures forall i, j :: 0 <= i < j < |PossibleTranspositions| ==>
              PossibleTranspositions[i] != PossibleTranspositions[j]
  {
  }

  /** `to_transpose_enum`: "t" and "c" select their transposition; every
      other string, the empty one included, means no transposition. */
  function ToTransposeEnum(t: string): (r: Transposition)
    ensures r == Transposed <==> t == "t"
    ensures r == Conjugate <==> t == "c"
    ensures r == Normal <==> t != "t" && t != "c"
  {
    if t == "t" then Transposed
    else if t == "c" then Conjugate
    else Normal
  }

  /** `from_transpose_enum`: a one-letter flag, "n", "t" or "c". */
  function FromTransposeEnum(t: Transposition): (s: string)
    ensures s == "n" || s == "t" || s == "c"
  {
    match t
    case Transposed => "t"
    case Conjugate => "c"
    case Normal => "n"
  }

  lemma TransposeEnumRoundTrip(t: Transposition)
    ensures ToTransposeEnum(FromTransposeEnum(t)) == t
  {
  }

  lemma TransposeStringRoundTrip(s: string)
    requires s == "n" || s == "t" || s == "c"
    ensures FromTransposeEnum(ToTransposeEnum(s)) == s
  {
  }

  /** `get_type_name`: readable names for `float` and `double`, the
      implementation's `typeid` name for any other type. */
  function GetTypeName(t: ScalarType): (name: string)
    ensures t == Float ==> name == "float"
    ensures t == Double ==> name == "double"
    ensures t.OtherScalar? ==> name == t.typeidName
  {
    match t
    case Float => "float"
    case Double => "double"
    case OtherScalar(typeidName) => typeidName
  }

  /** `const_data(size, constValue)`: a value-initialised vector of `size`
      elements, then filled with `constValue`. */
  method ConstData(size: nat, constValue: real) returns (v: seq<real>)
    ensures |v| == size
    ensures forall i :: 0 <= i < size ==> v[i] == constValue
  {
    var buf := new real[size](_ => 0.0);
    var i := 0;
    while i < size
      invariant 0 <= i <= size
      invariant forall k :: 0 <= k < i ==> buf[k] == constValue
    {
      buf[i] := constValue;
      i := i + 1;
    }
    v := buf[..];
  }

  /** `const_data(size)`: the default constant is 0. */
  method ConstDataDefault(size: nat) returns (v: seq<real>)
    ensures |v| == size
    ensures forall i :: 0 <= i < size ==> v[i] == 0.0
  {
    v := ConstData(size, 0.0);
  }

  /** The character appended to every non-empty line before it is split. */
  const Nul: char := '\0'

  /** Position of the first `d` at or after `pos`, or `|s|` when there is
      none. */
  function IndexFrom(s: string, pos: nat, d: char): (e: nat)
    requires pos <= |s|
    ensures pos <= e <= |s|
    ensures forall j :: pos <= j < e ==> s[j] != d
    ensures e == |s| || s[e] == d
    decreases |s| - pos
  {
    if pos == |s| || s[pos] == d then pos else IndexFrom(s, pos + 1, d)
  }

  /** Any position with the two defining properties is the one `IndexFrom`
      finds. */
  lemma IndexFromUnique(s: string, pos: nat, d: char, e: nat)
    requires pos <= e <= |s|
    requires forall j :: pos <= j < e ==> s[j] != d
    requires e == |s| || s[e] == d
    ensures IndexFrom(s, pos, d) == e
  {
  }

  /** Number of occurrences of `d` at or after `pos`. */
  function CountFrom(s: string, pos: nat, d: char): nat
    requires pos <= |s|
    decreases |s| - pos
  {
    if pos == |s| then 0 else (if s[pos] == d then 1 else 0) + CountFrom(s, pos + 1, d)
  }

  function Count(s: string, d: char): nat
  {
    CountFrom(s, 0, d)
  }

  /** The reference split of `s[pos..]`: the pieces between occurrences of
      `d`, one more piece than there are delimiters. */
  function CellsFrom(s: string, pos: nat, d: char): (cells: seq<string>)
    requires pos <= |s|
    ensures cells != []
    decreases |s| - pos
  {
    var e := IndexFrom(s, pos, d);
    if e < |s| then [s[pos..e]] + CellsFrom(s, e + 1, d) else [s[pos..]]
  }

  function Cells(s: string, d: char): seq<string>
  {
    CellsFrom(s, 0, d)
  }

  /** One unfolding of `CellsFrom` at a delimiter found at `e`. */
  lemma CellsFromAt(s: string, pos: nat, d: char, e: nat)
    requires pos <= e < |s| && IndexFrom(s, pos, d) == e
    ensures CellsFrom(s, pos, d) == [s[pos..e]] + CellsFrom(s, e + 1, d)
  {
  }

  /** One unfolding of `CellsFrom` when no delimiter is left. */
  lemma CellsFromLast(s: string, pos: nat, d: char)
    requires pos <= |s| && IndexFrom(s, pos, d) == |s|
    ensures CellsFrom(s, pos, d) == [s[pos..]]
  {
  }

  /** The pieces joined with `d` between them. */
  function Join(cells: seq<string>, d: char): string
  {
    if cells == [] then []
    else if |cells| == 1 then cells[0]
    else cells[0] + [d] + Join(cells[1..], d)
  }

  /** What repeated `std::getline(stream, cell, d)` extracts from a stream
      holding `s` positioned at `pos`: a call fails only when nothing is
      left, so a delimiter at the very end yields no trailing empty cell. */
  function GetlineCellsFrom(s: string, pos: nat, d: char): seq<string>
    requires pos <= |s|
    decreases |s| - pos
  {
    if pos == |s| then []
    else
      var e := IndexFrom(s, pos, d);
      if e < |s| then [s[pos..e]] + GetlineCellsFrom(s, e + 1, d) else [s[pos..]]
  }

  function GetlineCells(s: string, d: char): seq<string>
  {
    GetlineCellsFrom(s, 0, d)
  }

  lemma {:induction false} CountSkip(s: string, pos: nat, e: nat, d: char)
    requires pos <= e <= |s|
    requires forall j :: pos <= j < e ==> s[j] != d
    ensures CountFrom(s, pos, d) == CountFrom(s, e, d)
    decreases e - pos
  {
    if pos < e {
      CountSkip(s, pos + 1, e, d);
    }
  }

  lemma {:induction false} CellsCountFrom(s: string, pos: nat, d: char)
    requires pos <= |s|
    ensures |CellsFrom(s, pos, d)| == CountFrom(s, pos, d) + 1
    decreases |s| - pos
  {
    var e := IndexFrom(s, pos, d);
    CountSkip(s, pos, e, d);
    if e < |s| {
      CellsCountFrom(s, e + 1, d);
    }
  }

  /** One more cell than there are delimiters. */
  lemma CellsCount(s: string, d: char)
    ensures |Cells(s, d)| == Count(s, d) + 1
  {
    CellsCountFrom(s, 0, d);
  }

  lemma {:induction false} CellsHaveNoDelimiterFrom(s: string, pos: nat, d: char)
    requires pos <= |s|
    ensures forall k :: 0 <= k < |CellsFrom(s, pos, d)| ==> d !in CellsFrom(s, pos, d)[k]
    decreases |s| - pos
  {
    var e := IndexFrom(s, pos, d);
    assert forall j :: 0 <= j < e - pos ==> s[pos..e][j] == s[pos + j];
    if e < |s| {
      CellsHaveNoDelimiterFrom(s, e + 1, d);
    }
  }

  /** No cell contains the delimiter. */
  lemma CellsHaveNoDelimiter(s: string, d: char)
    ensures forall k :: 0 <= k < |Cells(s, d)| ==> d !in Cells(s, d)[k]
  {
    CellsHaveNoDelimiterFrom(s, 0, d);
  }

  lemma {:induction false} JoinCellsFrom(s: string, pos: nat, d: char)
    requires pos <= |s|
    ensures Join(CellsFrom(s, pos, d), d) == s[pos..]
    decreases |s| - pos
  {
    var e := IndexFrom(s, pos, d);
    if e < |s| {
      var x, rest := s[pos..e], CellsFrom(s, e + 1, d);
      assert CellsFrom(s, pos, d) == [x] + rest;
      JoinCellsFrom(s, e + 1, d);
      assert ([x] + rest)[1..] == rest;
      assert s[pos..] == x + [d] + s[e + 1..];
    } else {
      assert CellsFrom(s, pos, d) == [s[pos..]];
    }
  }

  /** Joining the cells with the delimiter gives back the string. */
  lemma JoinCells(s: string, d: char)
    ensures Join(Cells(s, d), d) == s
  {
    JoinCellsFrom(s, 0, d);
  }

  /** A string without the delimiter is a single cell. */
  lemma CellsOfField(f: string, d: char)
    requires d !in f
    ensures Cells(f, d) == [f]
  {
    IndexFromUnique(f, 0, d, |f|);
  }

  /** The step of `CellsSnocFrom` at a delimiter of `acc`, given the claim
      for the rest of `acc`. */
  lemma CellsSnocStep(acc: string, pos: nat, e: nat, d: char, f: string)
    requires pos <= e < |acc| && e == IndexFrom(acc, pos, d)
    requires CellsFrom(acc + [d] + f, e + 1, d) == CellsFrom(acc, e + 1, d) + [f]
    ensures CellsFrom(acc + [d] + f, pos, d) == CellsFrom(acc, pos, d) + [f]
  {
    var s := acc + [d] + f;
    IndexFromUnique(s, pos, d, e);
    assert s[pos..e] == acc[pos..e];
    CellsFromAt(s, pos, d, e);
    CellsFromAt(acc, pos, d, e);
    var x, r := acc[pos..e], CellsFrom(acc, e + 1, d);
    assert CellsFrom(s, pos, d) == [x] + (r + [f]);
    assert [x] + (r + [f]) == ([x] + r) + [f];
  }

  /** The last step of `CellsSnocFrom`: the last cell of `acc`, then `f`. */
  lemma CellsSnocLast(acc: string, pos: nat, d: char, f: string)
    requires pos <= |acc| && IndexFrom(acc, pos, d) == |acc|
    requires d !in f
    ensures CellsFrom(acc + [d] + f, pos, d) == CellsFrom(acc, pos, d) + [f]
  {
    var s, e := acc + [d] + f, |acc|;
    IndexFromUnique(s, pos, d, e);
    assert s[pos..e] == acc[pos..];
    CellsFromAt(s, pos, d, e);
    CellsFromLast(acc, pos, d);
    assert forall j :: e + 1 <= j < |s| ==> s[j] == f[j - e - 1];
    IndexFromUnique(s, e + 1, d, |s|);
    assert s[e + 1..] == f;
    CellsFromLast(s, e + 1, d);
  }

  lemma {:induction false} CellsSnocFrom(acc: string, pos: nat, d: char, f: string)
    requires pos <= |acc|
    requires d !in f
    ensures CellsFrom(acc + [d] + f, pos, d) == CellsFrom(acc, pos, d) + [f]
    decreases |acc| - pos
  {
    var e := IndexFrom(acc, pos, d);
    if e < |acc| {
      CellsSnocFrom(acc, e + 1, d, f);
      CellsSnocStep(acc, pos, e, d, f);
    } else {
      CellsSnocLast(acc, pos, d, f);
    }
  }

  /** Appending a delimiter and a delimiter-free field adds exactly that
      field as a last cell. */
  lemma CellsSnoc(acc: string, d: char, f: string)
    requires d !in f
    ensures Cells(acc + [d] + f, d) == Cells(acc, d) + [f]
  {
    CellsSnocFrom(acc, 0, d, f);
  }

  lemma IndexFromShift(s: string, k: nat, i: nat, d: char)
    requires k + i <= |s|
    ensures IndexFrom(s, k + i, d) == k + IndexFrom(s[k..], i, d)
  {
    var t, e := s[k..], IndexFrom(s[k..], i, d);
    assert forall j :: k + i <= j < k + e ==> s[j] == t[j - k];
    assert e < |t| ==> s[k + e] == t[e];
    IndexFromUnique(s, k + i, d, k + e);
  }

  lemma SliceOfSuffix(s: string, k: nat, i: nat, j: nat)
    requires k + i <= k + j <= |s|
    ensures s[k + i..k + j] == s[k..][i..j]
    ensures k + j == |s| ==> s[k + i..] == s[k..][i..]
  {
  }

  /** Two splits that find the same first cell and agree afterwards agree. */
  lemma CellsFromCongruent(s: string, p: nat, e: nat, t: string, q: nat, f: nat, d: char)
    requires p <= e < |s| && IndexFrom(s, p, d) == e
    requires q <= f < |t| && IndexFrom(t, q, d) == f
    requires s[p..e] == t[q..f]
    requires CellsFrom(s, e + 1, d) == CellsFrom(t, f + 1, d)
    ensures CellsFrom(s, p, d) == CellsFrom(t, q, d)
  {
    CellsFromAt(s, p, d, e);
    CellsFromAt(t, q, d, f);
    var x, a, b := t[q..f], CellsFrom(s, e + 1, d), CellsFrom(t, f + 1, d);
    assert CellsFrom(s, p, d) == [x] + a;
    assert CellsFrom(t, q, d) == [x] + b;
  }

  /** The step of `CellsFromShift` at a delimiter, given the claim for the
      rest of the string. */
  lemma CellsFromShiftStep(s: string, k: nat, i: nat, e: nat, d: char)
    requires k + i <= |s|
    requires e == IndexFrom(s[k..], i, d) && e < |s| - k
    requires CellsFrom(s, k + e + 1, d) == CellsFrom(s[k..], e + 1, d)
    ensures CellsFrom(s, k + i, d) == CellsFrom(s[k..], i, d)
  {
    IndexFromShift(s, k, i, d);
    SliceOfSuffix(s, k, i, e);
    CellsFromCongruent(s, k + i, k + e, s[k..], i, e, d);
  }

  /** The last step of `CellsFromShift`, where no delimiter is left. */
  lemma CellsFromShiftLast(s: string, k: nat, i: nat, d: char)
    requires k + i <= |s|
    requires IndexFrom(s[k..], i, d) == |s[k..]|
    ensures CellsFrom(s, k + i, d) == CellsFrom(s[k..], i, d)
  {
    IndexFromShift(s, k, i, d);
    CellsFromLast(s, k + i, d);
    CellsFromLast(s[k..], i, d);
    SliceOfSuffix(s, k, i, |s| - k);
  }

  /** Cells of a suffix do not depend on what precedes it. */
  lemma {:induction false} CellsFromShift(s: string, k: nat, i: nat, d: char)
    requires k + i <= |s|
    ensures CellsFrom(s, k + i, d) == CellsFrom(s[k..], i, d)
    decreases |s| - k - i
  {
    var e := IndexFrom(s[k..], i, d);
    if e < |s[k..]| {
      CellsFromShift(s, k, e + 1, d);
      CellsFromShiftStep(s, k, i, e, d);
    } else {
      CellsFromShiftLast(s, k, i, d);
    }
  }

  /** Cutting `a + d + rest` at its first delimiter, when `a` has none. */
  lemma CellsCons(a: string, d: char, rest: string)
    requires d !in a
    ensures Cells(a + [d] + rest, d) == [a] + Cells(rest, d)
  {
    var s := a + [d] + rest;
    IndexFromUnique(s, 0, d, |a|);
    assert s[0..|a|] == a;
    assert s[|a| + 1..] == rest;
    CellsFromShift(s, |a| + 1, 0, d);
  }

  /** Splitting a join of delimiter-free pieces recovers the pieces. */
  lemma {:induction false} CellsOfJoin(parts: seq<string>, d: char)
    requires parts != []
    requires forall k :: 0 <= k < |parts| ==> d !in parts[k]
    ensures Cells(Join(parts, d), d) == parts
    decreases |parts|
  {
    if |parts| == 1 {
      CellsOfField(parts[0], d);
    } else {
      CellsOfJoin(parts[1..], d);
      CellsCons(parts[0], d, Join(parts[1..], d));
      assert parts == [parts[0]] + parts[1..];
    }
  }

  lemma {:induction false} GetlineMatchesCellsFrom(s: string, pos: nat, d: char)
    requires pos < |s| && s[|s| - 1] != d
    ensures GetlineCellsFrom(s, pos, d) == CellsFrom(s, pos, d)
    decreases |s| - pos
  {
    var e := IndexFrom(s, pos, d);
    if e < |s| {
      assert e < |s| - 1;
      GetlineMatchesCellsFrom(s, e + 1, d);
    }
  }

  /** When the stream does not end with the delimiter, std::getline extracts
      exactly the reference cells. */
  lemma GetlineMatchesCells(s: string, d: char)
    requires s != [] && s[|s| - 1] != d
    ensures GetlineCells(s, d) == Cells(s, d)
  {
    GetlineMatchesCellsFrom(s, 0, d);
  }

  /** Why the line gets a NUL appended: without it a trailing comma would
      lose its empty last cell. */
  lemma TrailingDelimiterLosesCell()
    ensures GetlineCells("a,", ',') == ["a"]
    ensures Cells("a,", ',') == ["a", ""]
    ensures GetlineCells("a," + [Nul], ',') == ["a", [Nul]]
  {
    var s, t := "a,", "a," + [Nul];
    IndexFromUnique(s, 0, ',', 1);
    IndexFromUnique(t, 0, ',', 1);
    IndexFromUnique(s, 2, ',', 2);
    IndexFromUnique(t, 2, ',', 3);
    assert s[0..1] == "a" && s[2..] == [] && t[0..1] == "a" && t[2..] == [Nul];
    assert GetlineCellsFrom(t, 2, ',') == [[Nul]];
  }

  /** One `std::getline(stream, cell, d)` on a stream holding `s` and
      positioned at `pos`: fails when nothing is left; otherwise extracts
      up to the next delimiter, which it consumes and discards. Either way
      the cells still to come lose exactly the one extracted. */
  method Getline(s: string, pos: nat, d: char) returns (ok: bool, cell: string, next: nat)
    requires pos <= |s|
    ensures ok <==> pos < |s|
    ensures !ok ==> cell == [] && next == pos
    ensures ok ==> var e := IndexFrom(s, pos, d);
                   cell == s[pos..e] && next == (if e < |s| then e + 1 else |s|)
    ensures ok ==> pos < next <= |s| && GetlineCellsFrom(s, pos, d) == [cell] + GetlineCellsFrom(s, next, d)
  {
    cell := [];
    if pos == |s| {
      return false, cell, pos;
    }
    var i := pos;
    while i < |s| && s[i] != d
      invariant pos <= i <= |s|
      invariant cell == s[pos..i]
      invariant forall j :: pos <= j < i ==> s[j] != d
    {
      cell := cell + [s[i]];
      i := i + 1;
    }
    IndexFromUnique(s, pos, d, i);
    ok := true;
    next := if i < |s| then i + 1 else i;
    if i == |s| {
      assert s[pos..i] == s[pos..];
      assert GetlineCellsFrom(s, next, d) == [];
    }
  }

  /** The inner loop of `parse_csv_file`: std::getline on `d` until it
      fails, collecting every cell it extracts from the stream `s`. */
  method SplitCells(s: string, d: char) returns (cells: seq<string>)
    ensures cells == GetlineCells(s, d)
  {
    cells := [];
    var ok, cell, pos := Getline(s, 0, d);
    while ok
      invariant pos <= |s|
      invariant cells + (if ok then [cell] + GetlineCellsFrom(s, pos, d) else []) == GetlineCells(s, d)
      decreases |s| - pos + (if ok then 1 else 0)
    {
      cells := cells + [cell];
      ok, cell, pos := Getline(s, pos, d);
    }
  }

  /** Appending a character other than the delimiter adds no delimiter. */
  lemma {:induction false} CountFromSnoc(s: string, pos: nat, c: char, d: char)
    requires pos <= |s| && c != d
    ensures CountFrom(s + [c], pos, d) == CountFrom(s, pos, d)
    decreases |s| - pos
  {
    var t := s + [c];
    if pos == |s| {
      assert CountFrom(t, pos + 1, d) == 0;
    } else {
      assert t[pos] == s[pos];
      CountFromSnoc(s, pos + 1, c, d);
    }
  }

  /** What one line of the parameter file is cut into: with the NUL
      appended, std::getline extracts the reference cells, one more than
      the commas of the line itself, none containing a comma, and joining
      them with commas gives back the line followed by the NUL. */
  lemma LineRecordCells(line: string)
    ensures GetlineCells(line + [Nul], ',') == Cells(line + [Nul], ',')
    ensures |Cells(line + [Nul], ',')| == Count(line, ',') + 1
    ensures forall k :: 0 <= k < |Cells(line + [Nul], ',')| ==> ',' !in Cells(line + [Nul], ',')[k]
    ensures Join(Cells(line + [Nul], ','), ',') == line + [Nul]
  {
    var s := line + [Nul];
    GetlineMatchesCells(s, ',');
    CellsCount(s, ',');
    CountFromSnoc(line, 0, Nul, ',');
    CellsHaveNoDelimiter(s, ',');
    JoinCells(s, ',');
  }

  /** The lines that produce a record, in file order. */
  function NonEmptyLines(lines: seq<string>): seq<string>
  {
    if lines == [] then []
    else NonEmptyLines(lines[..|lines| - 1]) + (if lines[|lines| - 1] == [] then [] else [lines[|lines| - 1]])
  }

  /** Filtering distributes over concatenation, so records come out in the
      order of their lines. */
  lemma {:induction false} NonEmptyLinesAppend(a: seq<string>, b: seq<string>)
    ensures NonEmptyLines(a + b) == NonEmptyLines(a) + NonEmptyLines(b)
    decreases |b|
  {
    if b != [] {
      var b' := b[..|b| - 1];
      assert (a + b)[..|a + b| - 1] == a + b';
      NonEmptyLinesAppend(a, b');
    } else {
      assert a + b == a;
    }
  }

  /** An empty line yields no record, a non-empty one exactly one. */
  lemma NonEmptyLinesSingle(line: string)
    ensures NonEmptyLines([line]) == if line == [] then [] else [line]
  {
    assert [line][..0] == [];
  }

  /** `parse_csv_file` after the file is read: every non-empty line, with a
      NUL appended, is cut into cells by repeated std::getline on ','; `func`
      turns each line's cells into one parameter record. */
  method ParseCsvLines<P>(lines: seq<string>, func: seq<string> -> P) returns (csvData: seq<P>)
    ensures |csvData| == |NonEmptyLines(lines)|
    ensures forall r :: 0 <= r < |csvData| ==>
              csvData[r] == func(Cells(NonEmptyLines(lines)[r] + [Nul], ','))
  {
    csvData := [];
    var n := 0;
    while n < |lines|
      invariant 0 <= n <= |lines|
      invariant |csvData| == |NonEmptyLines(lines[..n])|
      invariant forall r :: 0 <= r < |csvData| ==>
                  csvData[r] == func(Cells(NonEmptyLines(lines[..n])[r] + [Nul], ','))
    {
      var line := lines[n];
      assert lines[..n + 1][..n] == lines[..n];
      if line != [] {
        var csvLine := SplitCells(line + [Nul], ',');
        GetlineMatchesCells(line + [Nul], ',');
        csvData := csvData + [func(csvLine)];
      }
      n := n + 1;
    }
    assert lines[..|lines|] == lines;
  }
}
