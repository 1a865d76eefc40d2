/**
 * Source positions of `lexion_lib`'s tokenizer: a line/column `FileLocation` ordered by line
 * then column, a `SourceLocation` that adds the file, and a `SourceRange` between two locations.
 */
module Location {
  datatype Ordering = Less | Equal | Greater

  datatype FileLocation = FileLocation(line: nat, col: nat)

  /** The default location: line 1, column 1. */
  const DEFAULT_LOCATION: FileLocation := FileLocation(1, 1)

  /** `partial_cmp` (and the derived `cmp`): by line, then by column. */
  function Compare(a: FileLocation, b: FileLocation): (r: Ordering) {
    if a.line < b.line then Less
    else if a.line > b.line then Greater
    else if a.col < b.col then Less
    else if a.col > b.col then Greater
    else Equal
  }

  predicate LocLe(a: FileLocation, b: FileLocation) {
    Compare(a, b) != Greater
  }

  /** `Compare` is a total order: equal exactly on equal locations, antisymmetric and transitive. */
  lemma CompareIsTotalOrder(a: FileLocation, b: FileLocation, c: FileLocation)
    ensures Compare(a, b) == Equal <==> a == b
    ensures Compare(a, b) == Less <==> Compare(b, a) == Greater
    ensures LocLe(a, b) || LocLe(b, a)
    ensures LocLe(a, b) && LocLe(b, c) ==> LocLe(a, c)
  {
  }

  /** The lesser of two locations, by `Compare`. */
  function MinLoc(a: FileLocation, b: FileLocation): (r: FileLocation)
    ensures LocLe(r, a) && LocLe(r, b) && (r == a || r == b)
  {
    if Compare(a, b) == Greater then b else a
  }

  function MaxLoc(a: FileLocation, b: FileLocation): (r: FileLocation)
    ensures LocLe(a, r) && LocLe(b, r) && (r == a || r == b)
  {
    if Compare(a, b) == Less then b else a
  }

  datatype SourceLocation = SourceLocation(file: string, loc: FileLocation)

  /** The default source location: the file `inline` at the default location. */
  const DEFAULT_SOURCE_LOCATION: SourceLocation := SourceLocation("inline", DEFAULT_LOCATION)

  datatype SourceRange = SourceRange(file: string, start: FileLocation, end: FileLocation)

  predicate Ordered(r: SourceRange) {
    LocLe(r.start, r.end)
  }

  predicate Contains(r: SourceRange, l: FileLocation) {
    LocLe(r.start, l) && LocLe(l, r.end)
  }

  /** `From<SourceLocation>`: the zero-width range at the location. */
  function FromLocation(l: SourceLocation): (r: SourceRange)
    ensures r.file == l.file && r.start == l.loc && r.end == l.loc
    ensures Ordered(r) && Contains(r, l.loc)
  {
    SourceRange(l.file, l.loc, l.loc)
  }

  /** `from_loc_len`: from the location to `len` columns further on the same line. */
  function FromLocLen(l: SourceLocation, len: nat): (r: SourceRange)
    ensures r.file == l.file && r.start == l.loc
    ensures r.end.line == l.loc.line && r.end.col == l.loc.col + len
    ensures Ordered(r)
    ensures len == 0 <==> r == FromLocation(l)
  {
    SourceRange(l.file, l.loc, FileLocation(l.loc.line, l.loc.col + len))
  }

  /** `from_start_end`: the two locations in order, with the file of the earlier one. */
  function FromStartEnd(s: SourceLocation, e: SourceLocation): (r: SourceRange)
    ensures Ordered(r)
    ensures (r.start == s.loc && r.end == e.loc && r.file == s.file) ||
            (r.start == e.loc && r.end == s.loc && r.file == e.file)
    ensures LocLe(s.loc, e.loc) ==> r == SourceRange(s.file, s.loc, e.loc)
  {
    if Compare(s.loc, e.loc) == Greater then SourceRange(e.file, e.loc, s.loc)
    else SourceRange(s.file, s.loc, e.loc)
  }

  /** `extend`: the range widened to reach the location. */
  function Extend(r: SourceRange, l: SourceLocation): (x: SourceRange)
    ensures x.file == r.file && x.start == MinLoc(r.start, l.loc) && x.end == MaxLoc(r.end, l.loc)
  {
    var start := if Compare(r.start, l.loc) == Greater then l.loc else r.start;
    var end := if Compare(r.end, l.loc) == Less then l.loc else r.end;
    SourceRange(r.file, start, end)
  }

  /** An extended range contains the location, and an ordered range keeps all it contained. */
  lemma ExtendContains(r: SourceRange, l: SourceLocation, m: FileLocation)
    ensures Ordered(Extend(r, l)) && Contains(Extend(r, l), l.loc)
    ensures Contains(r, m) ==> Contains(Extend(r, l), m)
  {
    CompareIsTotalOrder(r.start, l.loc, r.end);
    CompareIsTotalOrder(MinLoc(r.start, l.loc), m, MaxLoc(r.end, l.loc));
    CompareIsTotalOrder(MinLoc(r.start, l.loc), r.start, m);
    CompareIsTotalOrder(m, r.end, MaxLoc(r.end, l.loc));
  }

  /** `merge`: from the least to the greatest of the four endpoints, in the file of the first range. */
  function Merge(a: SourceRange, b: SourceRange): (r: SourceRange)
    ensures r.file == a.file
    ensures r.start in {a.start, a.end, b.start, b.end} && r.end in {a.start, a.end, b.start, b.end}
  {
    SourceRange(a.file, MinLoc(MinLoc(a.start, a.end), MinLoc(b.start, b.end)),
                MaxLoc(MaxLoc(a.start, a.end), MaxLoc(b.start, b.end)))
  }

  /** A merged range is ordered and contains all four endpoints. */
  lemma MergeContains(a: SourceRange, b: SourceRange)
    ensures Ordered(Merge(a, b))
    ensures Contains(Merge(a, b), a.start) && Contains(Merge(a, b), a.end)
    ensures Contains(Merge(a, b), b.start) && Contains(Merge(a, b), b.end)
  {
    var r := Merge(a, b);
    forall x, y, z | x in {a.start, a.end, b.start, b.end} && y in {a.start, a.end, b.start, b.end} && z in {r.start, r.end}
      ensures LocLe(x, y) && LocLe(y, z) ==> LocLe(x, z)
    {
      CompareIsTotalOrder(x, y, z);
    }
    CompareIsTotalOrder(r.start, a.start, r.end);
    CompareIsTotalOrder(MinLoc(a.start, a.end), r.start, a.start);
  }

  /** `start` and `end` of a range, as source locations. */
  function RangeStart(r: SourceRange): (l: SourceLocation)
    ensures l.file == r.file && l.loc == r.start
  {
    SourceLocation(r.file, r.start)
  }

  function RangeEnd(r: SourceRange): (l: SourceLocation)
    ensures l.file == r.file && l.loc == r.end
  {
    SourceLocation(r.file, r.end)
  }
}
