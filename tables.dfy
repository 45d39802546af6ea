/** Values shared by the three scripts: a data frame as pandas holds it, its
    cells, the errors the scripts raise, and order-preserving row filters. */
module Tables {

  /** One cell of a data frame: text, a number, or a missing value (NaN). */
  datatype Cell = Text(s: string) | Num(x: real) | Missing

  /** A row maps column names to cells. */
  type Row = map<string, Cell>

  /** A data frame: its column names in order, and its rows in order. */
  datatype Table = Table(columns: seq<string>, rows: seq<Row>)

  datatype Option<T> = None | Some(value: T)

  /** The exceptions the scripts raise (none of them is caught, except where noted). */
  datatype Error =
    | ConnectionError(status: int)          // non-200 HTTP status
    | ParseError                            // response body that pandas cannot read as a table
    | RemoveMissing(item: string)           // list.remove of an absent item (ValueError)
    | LabelNotFound(area: string)           // no usable label for an area (IndexError)
    | NothingToConcatenate(source: string)  // pd.concat of an empty list (ValueError)
    | KeyError(column: string)              // a data frame column that does not exist
    | UsecolsMismatch                       // read_csv usecols naming an absent column (ValueError)
    | NoneSubscript                         // subscripting None (TypeError)
    | TextDivision                          // a text cell divided by 2 (TypeError)
    | DateFormatError(text: string)         // strptime refusing its input (ValueError)
    | CursorIndexError(row: nat)            // a cursor row with too few fields (IndexError)
    | FileNotFound(path: string)            // read_csv of an absent file
    | NameError(name: string)               // a name that was never bound
    | InvalidName(name: string)             // a file name the platform refuses to create (OSError)

  datatype Result<T> = Ok(value: T) | Err(error: Error)

  /** The cell of row r in column c; a column the row lacks reads as missing. */
  function Get(r: Row, c: string): Cell {
    if c in r then r[c] else Missing
  }

  /** The elements of s that satisfy p, in their original order. */
  function Filter<T>(s: seq<T>, p: T -> bool): (r: seq<T>)
    ensures |r| <= |s|
  {
    if s == [] then [] else (if p(s[0]) then [s[0]] else []) + Filter(s[1..], p)
  }

  /** a occurs in b in order, possibly with gaps (matched greedily from the left). */
  predicate IsSubsequence<T(==)>(a: seq<T>, b: seq<T>)
    decreases |b|
  {
    if a == [] then true
    else if b == [] then false
    else if a[0] == b[0] then IsSubsequence(a[1..], b[1..])
    else IsSubsequence(a, b[1..])
  }

  lemma {:induction false} SubsequenceDropHead<T>(a: seq<T>, b: seq<T>)
    requires a != [] && IsSubsequence(a, b)
    ensures IsSubsequence(a[1..], b)
    decreases |b|, 0
  {
    if a[0] == b[0] {
      SubsequenceExtend(a[1..], b[1..], b[0]);
      assert [b[0]] + b[1..] == b;
    } else {
      SubsequenceDropHead(a, b[1..]);
      SubsequenceExtend(a[1..], b[1..], b[0]);
      assert [b[0]] + b[1..] == b;
    }
  }

  /** Putting one more element in front keeps a subsequence a subsequence. */
  lemma {:induction false} SubsequenceExtend<T>(a: seq<T>, b: seq<T>, x: T)
    requires IsSubsequence(a, b)
    ensures IsSubsequence(a, [x] + b)
    decreases |b|, 1
  {
    var xb := [x] + b;
    assert xb[1..] == b;
    if a != [] && a[0] == x {
      SubsequenceDropHead(a, b);
    }
  }

  lemma {:induction false} FilterIsSubsequence<T>(s: seq<T>, p: T -> bool)
    ensures IsSubsequence(Filter(s, p), s)
  {
    if s != [] {
      FilterIsSubsequence(s[1..], p);
      if p(s[0]) {
        assert ([s[0]] + Filter(s[1..], p))[1..] == Filter(s[1..], p);
      } else {
        assert Filter(s, p) == Filter(s[1..], p);
        SubsequenceExtend(Filter(s[1..], p), s[1..], s[0]);
        assert [s[0]] + s[1..] == s;
      }
    }
  }

  /** Membership in both directions: an element is kept iff it occurs and satisfies p. */
  lemma {:induction false} FilterMembers<T>(s: seq<T>, p: T -> bool, x: T)
    ensures x in Filter(s, p) <==> x in s && p(x)
  {
    if s != [] {
      FilterMembers(s[1..], p, x);
      assert s == [s[0]] + s[1..];
    }
  }

  /** Filtering a sequence with one more element in front. */
  lemma FilterCons<T>(x: T, s: seq<T>, p: T -> bool)
    ensures Filter([x] + s, p) == (if p(x) then [x] else []) + Filter(s, p)
  {
    var xs := [x] + s;
    assert xs[0] == x && xs[1..] == s;
  }

  /** Filtering distributes over concatenation: filtering pieces and joining
      them gives what filtering the whole gives. */
  lemma {:induction false} FilterConcat<T>(a: seq<T>, b: seq<T>, p: T -> bool)
    ensures Filter(a + b, p) == Filter(a, p) + Filter(b, p)
  {
    if a == [] {
      assert a + b == b;
    } else {
      var h, t := a[0], a[1..];
      var k := if p(h) then [h] else [];
      assert a == [h] + t;
      assert a + b == [h] + (t + b);
      FilterConcat(t, b, p);
      FilterCons(h, t + b, p);
      FilterCons(h, t, p);
      assert k + (Filter(t, p) + Filter(b, p)) == (k + Filter(t, p)) + Filter(b, p);
    }
  }

  /** Filtering twice with the same predicate is filtering once. */
  lemma {:induction false} FilterIdempotent<T>(s: seq<T>, p: T -> bool)
    ensures Filter(Filter(s, p), p) == Filter(s, p)
  {
    if s != [] {
      FilterIdempotent(s[1..], p);
      if p(s[0]) {
        var f := [s[0]] + Filter(s[1..], p);
        assert Filter(s, p) == f;
        assert f[0] == s[0] && f[1..] == Filter(s[1..], p);
        assert Filter(f, p) == [f[0]] + Filter(f[1..], p);
      } else {
        assert Filter(s, p) == Filter(s[1..], p);
      }
    }
  }

  /** Two filters in a row are one filter by the conjunction. */
  lemma {:induction false} FilterFilter<T>(s: seq<T>, p: T -> bool, q: T -> bool, pq: T -> bool)
    requires forall x :: pq(x) == (p(x) && q(x))
    ensures Filter(Filter(s, p), q) == Filter(s, pq)
  {
    if s != [] {
      FilterFilter(s[1..], p, q, pq);
      assert pq(s[0]) == (p(s[0]) && q(s[0]));
      if p(s[0]) {
        var f := [s[0]] + Filter(s[1..], p);
        assert Filter(s, p) == f;
        assert f[0] == s[0] && f[1..] == Filter(s[1..], p);
        assert Filter(f, q) == (if q(f[0]) then [f[0]] else []) + Filter(f[1..], q);
      } else {
        assert Filter(s, p) == Filter(s[1..], p);
      }
      assert Filter(s, pq) == (if pq(s[0]) then [s[0]] else []) + Filter(s[1..], pq);
    }
  }

  /** The concatenation of a sequence of sequences. */
  function Flatten<T>(ss: seq<seq<T>>): seq<T> {
    if ss == [] then [] else ss[0] + Flatten(ss[1..])
  }
}
