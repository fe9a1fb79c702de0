/**
 * `MarkdownTableHelperEx.ToMarkdownTable`: renders a sequence of records as a
 * GitHub-Flavored-Markdown table (GFM section 4.10, "Tables (extension)").
 *
 * The source discovers the columns by reflection over the record type; here the
 * caller passes them explicitly, in declaration order, as `Property` values, and
 * each record as the sequence of its properties' `ToString()` results (`None` where
 * the value or its `ToString()` is null).
 */
module MarkdownTableHelperEx {
  import opened Wrappers
  import opened Strings

  /** The declared type of a property; only the eleven numeric types are distinguished. */
  datatype PropertyType =
    | Byte | SByte | UInt16 | UInt32 | UInt64 | Int16 | Int32 | Int64
    | Decimal | Double | Single
    | OtherType(fullName: string)

  datatype Property = Property(name: string, propertyType: PropertyType)

  /** One source record: per property, the text of its value, `None` for null. */
  type Record = seq<Option<string>>

  /** The numeric types whose columns get a right-alignment marker. */
  predicate IsNumeric(t: PropertyType)
  {
    t.Byte? || t.SByte? || t.UInt16? || t.UInt32? || t.UInt64? || t.Int16? ||
    t.Int32? || t.Int64? || t.Decimal? || t.Double? || t.Single?
  }

  /** The character that closes a divider segment. */
  function RightAlign(t: PropertyType): (c: char)
    ensures c == ':' <==> IsNumeric(t)
    ensures c == ' ' <==> !IsNumeric(t)
  {
    if IsNumeric(t) then ':' else ' '
  }

  /** Every record has one value per property (reflection guarantees this in the source). */
  predicate WellFormed(props: seq<Property>, source: seq<Record>)
  {
    forall k :: 0 <= k < |source| ==> |source[k]| == |props|
  }

  /** A C# property name is never empty and never contains '-'. */
  predicate ValidNames(props: seq<Property>)
  {
    forall i :: 0 <= i < |props| ==> |props[i].name| > 0 && '-' !in props[i].name
  }

  /** `value?.ToString() ?? ""`. */
  function CellText(v: Option<string>): string
  {
    v.GetOr("")
  }

  /** `value?.ToString()?.Length ?? 0`. */
  function CellLength(v: Option<string>): nat
  {
    match v
    case None => 0
    case Some(s) => |s|
  }

  function CellLengths(r: Record): (lens: seq<nat>)
    ensures |lens| == |r|
  {
    seq(|r|, i requires 0 <= i < |r| => CellLength(r[i]))
  }

  function NameLengths(props: seq<Property>): (lens: seq<nat>)
    ensures |lens| == |props|
  {
    seq(|props|, i requires 0 <= i < |props| => |props[i].name|)
  }

  /** `accumulate.Zip(x, Math.Max)`: element-wise maximum, as long as the shorter input. */
  function ZipMax(a: seq<nat>, b: seq<nat>): (r: seq<nat>)
    ensures |r| == if |a| < |b| then |a| else |b|
  {
    seq(if |a| < |b| then |a| else |b|, i requires 0 <= i < |a| && i < |b| =>
      if a[i] < b[i] then b[i] else a[i])
  }

  /** `vectors.Aggregate(acc, ZipMax)`: a left fold. */
  function AggregateZipMax(acc: seq<nat>, vectors: seq<seq<nat>>): (r: seq<nat>)
    ensures (forall j :: 0 <= j < |vectors| ==> |vectors[j]| >= |acc|) ==> |r| == |acc|
    decreases |vectors|
  {
    if |vectors| == 0 then acc
    else AggregateZipMax(ZipMax(acc, vectors[0]), vectors[1..])
  }

  /**
   * The column widths. The source writes `rowLengths.Union(new[] { headerLengths })`;
   * its elements are lazily built sequences that `Union` compares by reference, so
   * nothing is removed and the union is a concatenation.
   */
  function ColumnWidths(props: seq<Property>, source: seq<Record>): (w: seq<nat>)
    requires WellFormed(props, source)
    ensures |w| == |props|
  {
    var vectors := seq(|source|, k requires 0 <= k < |source| => CellLengths(source[k]))
                   + [NameLengths(props)];
    AggregateZipMax(seq(|props|, _ => 0), vectors)
  }

  function HeaderCells(props: seq<Property>, w: seq<nat>): seq<string>
    requires |w| == |props|
  {
    seq(|props|, i requires 0 <= i < |props| => PadRight(props[i].name, w[i]))
  }

  function HeaderLine(props: seq<Property>, w: seq<nat>): string
    requires |w| == |props|
  {
    "| " + Join(" | ", HeaderCells(props, w)) + " |"
  }

  /** One divider segment: `width` dashes, then ':' for a numeric column or a space. */
  function DividerSegment(t: PropertyType, width: nat): (seg: string)
    ensures |seg| == width + 1
    ensures forall j :: 0 <= j < width ==> seg[j] == '-'
    ensures seg[width] == ':' <==> IsNumeric(t)
    ensures seg[width] == ' ' <==> !IsNumeric(t)
  {
    Repeat('-', width) + [RightAlign(t)]
  }

  function DividerSegments(props: seq<Property>, w: seq<nat>): seq<string>
    requires |w| == |props|
  {
    seq(|props|, i requires 0 <= i < |props| => DividerSegment(props[i].propertyType, w[i]))
  }

  function DividerLine(props: seq<Property>, w: seq<nat>): string
    requires |w| == |props|
  {
    "| " + Join("| ", DividerSegments(props, w)) + "|"
  }

  function RowCells(r: Record, w: seq<nat>): seq<string>
    requires |r| == |w|
  {
    seq(|r|, i requires 0 <= i < |r| => PadRight(CellText(r[i]), w[i]))
  }

  function RowLine(r: Record, w: seq<nat>): string
    requires |r| == |w|
  {
    "| " + Join(" | ", RowCells(r, w)) + " |"
  }

  function RowLines(props: seq<Property>, source: seq<Record>, w: seq<nat>): seq<string>
    requires WellFormed(props, source) && |w| == |props|
  {
    seq(|source|, k requires 0 <= k < |source| => RowLine(source[k], w))
  }

  predicate NoDuplicates(s: seq<string>)
  {
    forall i, j :: 0 <= i < j < |s| ==> s[i] != s[j]
  }

  /** The distinct elements of `s`, each at its first occurrence (LINQ's `Distinct`). */
  function Distinct(s: seq<string>): (r: seq<string>)
    ensures forall x :: x in r <==> x in s
    ensures NoDuplicates(r)
    ensures |r| <= |s|
  {
    if |s| == 0 then []
    else
      var d := Distinct(s[..|s| - 1]);
      if s[|s| - 1] in d then d else d + [s[|s| - 1]]
  }

  /** LINQ's `a.Union(b)`: the distinct elements of `a` then `b`, in order of first occurrence. */
  function Union(a: seq<string>, b: seq<string>): seq<string>
  {
    Distinct(a + b)
  }

  /** The lines of the table before joining: header, divider, rows, duplicates dropped. */
  function TableLines(props: seq<Property>, source: seq<Record>): (lines: seq<string>)
    requires WellFormed(props, source)
    ensures |lines| > 0
  {
    var w := ColumnWidths(props, source);
    var lines := Union([HeaderLine(props, w), DividerLine(props, w)], RowLines(props, source, w));
    assert HeaderLine(props, w) in lines;
    lines
  }

  /** `lines.Aggregate((p, c) => p + newLine + c)`: a left fold with no seed. */
  function AggregateLines(lines: seq<string>, newLine: string): string
    requires |lines| > 0
  {
    if |lines| == 1 then lines[0]
    else AggregateLines(lines[..|lines| - 1], newLine) + newLine + lines[|lines| - 1]
  }

  /** `source.ToMarkdownTable()` with `Environment.NewLine` passed as `newLine`. */
  function ToMarkdownTable(props: seq<Property>, source: seq<Record>, newLine: string): string
    requires WellFormed(props, source)
  {
    AggregateLines(TableLines(props, source), newLine)
  }

  // ---------------------------------------------------------------------------
  // Column widths

  lemma {:induction false} AggregateZipMaxBounds(acc: seq<nat>, vectors: seq<seq<nat>>, i: nat)
    requires i < |acc|
    requires forall j :: 0 <= j < |vectors| ==> |vectors[j]| == |acc|
    ensures |AggregateZipMax(acc, vectors)| == |acc|
    ensures AggregateZipMax(acc, vectors)[i] >= acc[i]
    ensures forall j :: 0 <= j < |vectors| ==> AggregateZipMax(acc, vectors)[i] >= vectors[j][i]
    ensures AggregateZipMax(acc, vectors)[i] == acc[i]
         || exists j :: 0 <= j < |vectors| && AggregateZipMax(acc, vectors)[i] == vectors[j][i]
    decreases |vectors|
  {
    if |vectors| > 0 {
      var next := ZipMax(acc, vectors[0]);
      var rest := vectors[1..];
      AggregateZipMaxBounds(next, rest, i);
      assert AggregateZipMax(acc, vectors) == AggregateZipMax(next, rest);
      forall j | 0 <= j < |vectors|
        ensures AggregateZipMax(acc, vectors)[i] >= vectors[j][i]
      {
        if j > 0 { assert vectors[j] == rest[j - 1]; }
      }
      var r := AggregateZipMax(acc, vectors);
      if r[i] != next[i] {
        var j :| 0 <= j < |rest| && r[i] == rest[j][i];
        assert rest[j] == vectors[j + 1];
      }
    }
  }

  /**
   * Each column is exactly as wide as the longest of its header name and its cells,
   * a null value counting as 0.
   */
  lemma ColumnWidthIsMaximum(props: seq<Property>, source: seq<Record>, i: nat)
    requires WellFormed(props, source)
    requires i < |props|
    ensures ColumnWidths(props, source)[i] >= |props[i].name|
    ensures forall k :: 0 <= k < |source| ==> ColumnWidths(props, source)[i] >= CellLength(source[k][i])
    ensures ColumnWidths(props, source)[i] == |props[i].name|
         || exists k :: 0 <= k < |source| && ColumnWidths(props, source)[i] == CellLength(source[k][i])
  {
    var zeros: seq<nat> := seq(|props|, _ => 0);
    var rows := seq(|source|, k requires 0 <= k < |source| => CellLengths(source[k]));
    var vectors := rows + [NameLengths(props)];
    AggregateZipMaxBounds(zeros, vectors, i);
    var w := ColumnWidths(props, source);
    assert w == AggregateZipMax(zeros, vectors);
    assert vectors[|source|] == NameLengths(props);
    forall k | 0 <= k < |source|
      ensures w[i] >= CellLength(source[k][i])
    {
      assert vectors[k] == CellLengths(source[k]);
    }
    if w[i] != |props[i].name| {
      assert w[i] != zeros[i];
      var j :| 0 <= j < |vectors| && w[i] == vectors[j][i];
      assert j < |source|;
      assert vectors[j] == CellLengths(source[j]);
    }
  }

  /** With no records, the widths are the header names' lengths. */
  lemma EmptySourceWidths(props: seq<Property>)
    ensures ColumnWidths(props, []) == NameLengths(props)
  {
    var zeros: seq<nat> := seq(|props|, _ => 0);
    var vectors := seq(0, k requires 0 <= k < 0 => CellLengths([])) + [NameLengths(props)];
    assert vectors == [NameLengths(props)];
    assert AggregateZipMax(zeros, vectors) == ZipMax(zeros, NameLengths(props));
  }

  // ---------------------------------------------------------------------------
  // Cells and line lengths

  /**
   * Every header and data cell is its text followed by spaces up to exactly the
   * column's width; numeric and non-numeric cells are padded alike.
   */
  lemma CellsArePadded(props: seq<Property>, source: seq<Record>, i: nat)
    requires WellFormed(props, source)
    requires i < |props|
    ensures var w := ColumnWidths(props, source);
      && |HeaderCells(props, w)[i]| == w[i]
      && HeaderCells(props, w)[i][..|props[i].name|] == props[i].name
      && (forall j :: |props[i].name| <= j < w[i] ==> HeaderCells(props, w)[i][j] == ' ')
      && forall k :: 0 <= k < |source| ==>
           && |RowCells(source[k], w)[i]| == w[i]
           && RowCells(source[k], w)[i][..|CellText(source[k][i])|] == CellText(source[k][i])
           && (forall j :: |CellText(source[k][i])| <= j < w[i] ==> RowCells(source[k], w)[i][j] == ' ')
  {
    ColumnWidthIsMaximum(props, source, i);
    var w := ColumnWidths(props, source);
    forall k | 0 <= k < |source|
      ensures |CellText(source[k][i])| <= w[i]
    {
      assert |CellText(source[k][i])| == CellLength(source[k][i]);
    }
  }

  /** The common length of every line of a table whose widths are `w`. */
  function LineWidth(w: seq<nat>): nat
  {
    Sum(w) + 3 * |w| + 1
  }

  lemma {:induction false} PaddedLineLength(cells: seq<string>, w: seq<nat>)
    requires |cells| == |w| > 0
    requires forall i :: 0 <= i < |cells| ==> |cells[i]| == w[i]
    ensures |"| " + Join(" | ", cells) + " |"| == LineWidth(w)
  {
    JoinLength(" | ", cells);
    SumLengthsOfWidths(cells, w);
  }

  lemma DividerLineLength(props: seq<Property>, w: seq<nat>)
    requires |w| == |props| > 0
    ensures |DividerLine(props, w)| == LineWidth(w)
  {
    var segs := DividerSegments(props, w);
    var plusOne := seq(|w|, i requires 0 <= i < |w| => w[i] + 1);
    JoinLength("| ", segs);
    SumLengthsOfWidths(segs, plusOne);
    SumPlusOne(w, plusOne);
  }

  lemma {:induction false} SumPlusOne(w: seq<nat>, plusOne: seq<nat>)
    requires |plusOne| == |w|
    requires forall i :: 0 <= i < |w| ==> plusOne[i] == w[i] + 1
    ensures Sum(plusOne) == Sum(w) + |w|
  {
    if |w| > 0 {
      SumPlusOne(w[1..], plusOne[1..]);
    }
  }

  /**
   * With at least one column, the header, the divider and every data line all have
   * length `sum(widths) + 3 * columns + 1`.
   */
  lemma LineLengths(props: seq<Property>, source: seq<Record>)
    requires WellFormed(props, source)
    requires |props| > 0
    ensures var w := ColumnWidths(props, source);
      forall line :: line in TableLines(props, source) ==> |line| == LineWidth(w)
  {
    var w := ColumnWidths(props, source);
    forall i | 0 <= i < |props|
      ensures |HeaderCells(props, w)[i]| == w[i]
      ensures forall k :: 0 <= k < |source| ==> |RowCells(source[k], w)[i]| == w[i]
    {
      CellsArePadded(props, source, i);
    }
    PaddedLineLength(HeaderCells(props, w), w);
    DividerLineLength(props, w);
    forall k | 0 <= k < |source|
      ensures |RowLine(source[k], w)| == LineWidth(w)
    {
      PaddedLineLength(RowCells(source[k], w), w);
    }
    var all := [HeaderLine(props, w), DividerLine(props, w)] + RowLines(props, source, w);
    forall line | line in all
      ensures |line| == LineWidth(w)
    {
      var j :| 0 <= j < |all| && all[j] == line;
      if j >= 2 {
        assert line == RowLine(source[j - 2], w);
      }
    }
  }

  // ---------------------------------------------------------------------------
  // Order of the lines

  /** The index of the first occurrence of `x` in `s`. */
  function FirstIndex(s: seq<string>, x: string): (k: nat)
    requires x in s
    ensures k < |s| && s[k] == x && x !in s[..k]
  {
    if s[0] == x then 0
    else
      assert x in s[1..];
      var k := 1 + FirstIndex(s[1..], x);
      assert s[..k] == [s[0]] + s[1..][..k - 1];
      k
  }

  lemma FirstIndexOfPrefix(s: seq<string>, t: seq<string>, x: string)
    requires x in s
    ensures x in s + t && FirstIndex(s + t, x) == FirstIndex(s, x)
  {
    assert (s + t)[FirstIndex(s, x)] == x;
  }

  /**
   * `Distinct` keeps the elements in the order of their first occurrences, so a
   * repeated line appears once, at its first position.
   */
  lemma {:induction false} DistinctKeepsFirstOccurrenceOrder(s: seq<string>)
    ensures forall k, l :: 0 <= k < l < |Distinct(s)| ==>
      FirstIndex(s, Distinct(s)[k]) < FirstIndex(s, Distinct(s)[l])
  {
    if |s| > 0 {
      var init := s[..|s| - 1];
      var x := s[|s| - 1];
      assert s == init + [x];
      DistinctKeepsFirstOccurrenceOrder(init);
      var d := Distinct(init);
      forall y | y in d
        ensures FirstIndex(s, y) == FirstIndex(init, y)
      {
        FirstIndexOfPrefix(init, [x], y);
      }
      if x !in d {
        var r := Distinct(s);
        assert r == d + [x];
        assert FirstIndex(s, x) == |init|;
        forall k, l | 0 <= k < l < |r|
          ensures FirstIndex(s, r[k]) < FirstIndex(s, r[l])
        {
          assert r[k] == d[k] && r[k] in d;
          if l < |d| {
            assert r[l] == d[l] && r[l] in d;
          }
        }
      } else {
        forall k, l | 0 <= k < l < |d|
          ensures FirstIndex(s, d[k]) < FirstIndex(s, d[l])
        {
          assert d[k] in d && d[l] in d;
        }
      }
    }
  }

  /** A sequence without duplicates is its own `Distinct`. */
  lemma {:induction false} DistinctOfDistinct(s: seq<string>)
    requires NoDuplicates(s)
    ensures Distinct(s) == s
  {
    if |s| > 0 {
      var init := s[..|s| - 1];
      DistinctOfDistinct(init);
      assert s[|s| - 1] !in init;
      assert s == init + [s[|s| - 1]];
    }
  }

  /** `Distinct(a + b)` starts with `Distinct(a)`. */
  lemma {:induction false} DistinctOfConcat(a: seq<string>, b: seq<string>)
    ensures |Distinct(a)| <= |Distinct(a + b)|
    ensures Distinct(a + b)[..|Distinct(a)|] == Distinct(a)
    decreases |b|
  {
    if |b| == 0 {
      assert a + b == a;
    } else {
      var b' := b[..|b| - 1];
      DistinctOfConcat(a, b');
      assert (a + b)[..|a + b| - 1] == a + b';
    }
  }

  /** The header line differs from the divider when the properties have C# names. */
  lemma HeaderIsNotDivider(props: seq<Property>, w: seq<nat>)
    requires |w| == |props| > 0
    requires ValidNames(props)
    requires w[0] >= |props[0].name|
    ensures HeaderLine(props, w) != DividerLine(props, w)
  {
    var cells := HeaderCells(props, w);
    var segs := DividerSegments(props, w);
    JoinStartsWithFirst(" | ", cells);
    JoinStartsWithFirst("| ", segs);
    assert HeaderLine(props, w)[2] == cells[0][0] == props[0].name[0];
    assert DividerLine(props, w)[2] == segs[0][0] == '-';
  }

  /**
   * The table starts with the header line followed by the divider line; the data
   * lines follow in source order, each distinct line once, at its first position.
   */
  lemma TableLineOrder(props: seq<Property>, source: seq<Record>)
    requires WellFormed(props, source)
    requires |props| > 0 && ValidNames(props)
    ensures var w := ColumnWidths(props, source);
      var lines := TableLines(props, source);
      var all := [HeaderLine(props, w), DividerLine(props, w)] + RowLines(props, source, w);
      && |lines| >= 2
      && lines[0] == HeaderLine(props, w)
      && lines[1] == DividerLine(props, w)
      && NoDuplicates(lines)
      && (forall k :: 0 <= k < |source| ==> RowLine(source[k], w) in lines)
      && (forall line :: line in lines ==> line in all)
      && (forall k, l :: 0 <= k < l < |lines| ==> FirstIndex(all, lines[k]) < FirstIndex(all, lines[l]))
  {
    var w := ColumnWidths(props, source);
    var head := [HeaderLine(props, w), DividerLine(props, w)];
    var all := head + RowLines(props, source, w);
    ColumnWidthIsMaximum(props, source, 0);
    HeaderIsNotDivider(props, w);
    DistinctOfDistinct(head);
    DistinctOfConcat(head, RowLines(props, source, w));
    DistinctKeepsFirstOccurrenceOrder(all);
    forall k | 0 <= k < |source|
      ensures RowLine(source[k], w) in TableLines(props, source)
    {
      assert all[k + 2] == RowLine(source[k], w);
    }
  }

  // ---------------------------------------------------------------------------
  // Joining

  /** The `Aggregate` fold joins the lines with the newline and adds no trailing newline. */
  lemma {:induction false} AggregateLinesIsJoin(lines: seq<string>, newLine: string)
    requires |lines| > 0
    ensures AggregateLines(lines, newLine) == Join(newLine, lines)
  {
    if |lines| > 1 {
      var init := lines[..|lines| - 1];
      AggregateLinesIsJoin(init, newLine);
      JoinSnoc(newLine, init, lines[|lines| - 1]);
      assert init + [lines[|lines| - 1]] == lines;
    }
  }

  lemma {:induction false} JoinSnoc(sep: string, parts: seq<string>, last: string)
    requires |parts| > 0
    ensures Join(sep, parts + [last]) == Join(sep, parts) + sep + last
  {
    if |parts| > 1 {
      JoinSnoc(sep, parts[1..], last);
      assert (parts + [last])[1..] == parts[1..] + [last];
    } else {
      assert (parts + [last])[1..] == [last];
    }
  }

  /**
   * An empty source renders as exactly the header line, a newline and the divider
   * line, with the widths equal to the header names' lengths.
   */
  lemma EmptySource(props: seq<Property>, newLine: string)
    requires |props| > 0 && ValidNames(props)
    ensures ToMarkdownTable(props, [], newLine)
         == HeaderLine(props, NameLengths(props)) + newLine + DividerLine(props, NameLengths(props))
  {
    var w := NameLengths(props);
    EmptySourceWidths(props);
    HeaderIsNotDivider(props, w);
    var head := [HeaderLine(props, w), DividerLine(props, w)];
    DistinctOfDistinct(head);
    assert RowLines(props, [], w) == [];
    assert head + [] == head;
    assert Union(head, RowLines(props, [], w)) == head;
    assert TableLines(props, []) == head;
    assert head[..1] == [head[0]];
    assert AggregateLines(head, newLine) == AggregateLines([head[0]], newLine) + newLine + head[1];
  }
}
