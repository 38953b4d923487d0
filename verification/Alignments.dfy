/** Alignments of two texts: the reference notion that both text metrics of the
    repository (edit distance and longest common subsequence) are proved against.

    A column says what happens to one character; a list of columns reads as an
    edit script from the text before to the text after. */
module Alignments {

  datatype Column<T> =
    | Keep(c: T)
    | Substitute(was: T, now: T)
    | Insert(now: T)
    | Delete(was: T)

  function Init<T>(s: seq<T>): seq<T>
    requires s != []
  {
    s[..|s| - 1]
  }

  function Last<T>(s: seq<T>): T
    requires s != []
  {
    s[|s| - 1]
  }

  function Consumed<T>(col: Column<T>): seq<T> {
    match col
    case Keep(c) => [c]
    case Substitute(x, _) => [x]
    case Insert(_) => []
    case Delete(x) => [x]
  }

  function Produced<T>(col: Column<T>): seq<T> {
    match col
    case Keep(c) => [c]
    case Substitute(_, y) => [y]
    case Insert(y) => [y]
    case Delete(_) => []
  }

  /** The text that a script consumes. */
  function Before<T>(cols: seq<Column<T>>): seq<T> {
    if cols == [] then [] else Before(Init(cols)) + Consumed(Last(cols))
  }

  /** The text that a script produces. */
  function After<T>(cols: seq<Column<T>>): seq<T> {
    if cols == [] then [] else After(Init(cols)) + Produced(Last(cols))
  }

  ghost predicate Aligns<T>(cols: seq<Column<T>>, a: seq<T>, b: seq<T>) {
    Before(cols) == a && After(cols) == b
  }

  function Price<T>(col: Column<T>): nat {
    if col.Keep? then 0 else 1
  }

  /** Number of insertions, deletions and substitutions. */
  function Cost<T>(cols: seq<Column<T>>): nat {
    if cols == [] then 0
    else Cost(Init(cols)) + Price(Last(cols))
  }

  /** Number of characters carried over unchanged. */
  function Kept<T>(cols: seq<Column<T>>): nat {
    if cols == [] then 0
    else Kept(Init(cols)) + if Last(cols).Keep? then 1 else 0
  }

  function Snoc<T>(cols: seq<Column<T>>, col: Column<T>): (r: seq<Column<T>>)
    ensures r != [] && Init(r) == cols && Last(r) == col
    ensures Before(r) == Before(cols) + Consumed(col)
    ensures After(r) == After(cols) + Produced(col)
    ensures Cost(r) == Cost(cols) + Price(col)
    ensures Kept(r) == Kept(cols) + if col.Keep? then 1 else 0
  {
    var r := cols + [col];
    assert Init(r) == cols;
    r
  }

  function Flip<T>(col: Column<T>): Column<T> {
    match col
    case Keep(c) => Keep(c)
    case Substitute(x, y) => Substitute(y, x)
    case Insert(y) => Delete(y)
    case Delete(x) => Insert(x)
  }

  /** The script that undoes `cols`. */
  function Inverse<T>(cols: seq<Column<T>>): (inv: seq<Column<T>>)
    ensures Before(inv) == After(cols) && After(inv) == Before(cols)
    ensures Cost(inv) == Cost(cols) && Kept(inv) == Kept(cols)
  {
    if cols == [] then [] else Snoc(Inverse(Init(cols)), Flip(Last(cols)))
  }

  /** `p` and then `q` done to one character: a single column, or nothing for an
      insertion that is deleted again. */
  function Fuse<T>(cols: seq<Column<T>>, p: Column<T>, q: Column<T>): (r: seq<Column<T>>)
    requires Produced(p) == Consumed(q) != []
    ensures Before(r) == Before(cols) + Consumed(p)
    ensures After(r) == After(cols) + Produced(q)
    ensures Cost(r) <= Cost(cols) + Price(p) + Price(q)
  {
    match (p, q)
    case (Keep(_), _) => Snoc(cols, q)
    case (_, Keep(_)) => Snoc(cols, p)
    case (Insert(_), Substitute(_, z)) => Snoc(cols, Insert(z))
    case (Insert(_), Delete(_)) => cols
    case (Substitute(x, _), Substitute(_, z)) => Snoc(cols, Substitute(x, z))
    case (Substitute(x, _), Delete(_)) => Snoc(cols, Delete(x))
  }

  lemma SameLast<T>(a: seq<T>, x: seq<T>, b: seq<T>, y: seq<T>)
    requires |x| == |y| == 1 && a + x == b + y
    ensures a == b && x == y
  {
    assert |a| == |b|;
    assert a == (a + x)[..|a|] && b == (b + y)[..|b|];
    assert x == (a + x)[|a|..] && y == (b + y)[|b|..];
  }

  /** The script that does `p` and then `q`: it never costs more than the two together. */
  function Compose<T>(p: seq<Column<T>>, q: seq<Column<T>>): (r: seq<Column<T>>)
    requires After(p) == Before(q)
    ensures Before(r) == Before(p) && After(r) == After(q)
    ensures Cost(r) <= Cost(p) + Cost(q)
    decreases |p| + |q|
  {
    if p != [] && Last(p).Delete? then
      assert After(p) == After(Init(p));
      Snoc(Compose(Init(p), q), Last(p))
    else if q != [] && Last(q).Insert? then
      assert Before(q) == Before(Init(q));
      Snoc(Compose(p, Init(q)), Last(q))
    else if p == [] || q == [] then
      []
    else
      SameLast(After(Init(p)), Produced(Last(p)), Before(Init(q)), Consumed(Last(q)));
      Fuse(Compose(Init(p), Init(q)), Last(p), Last(q))
  }
}
