/**
 * Records as the repository layer sees them: an ORM instance is a map from
 * attribute name to column value, `filter_by(**filters)` keeps the records
 * whose attributes equal every filter entry, and `ORDER BY <column> DESC`
 * sorts by the database's order on column values.
 */
module Records {
  import opened Wrappers

  /** A column value: SQL NULL, a boolean, an integer, a text, or a timestamp
      (an instant, counted in microseconds). */
  datatype Value = Null | Bool(b: bool) | Int(i: int) | Str(s: string) | Time(micros: int)

  /** An ORM instance: attribute name to value. */
  type Record = map<string, Value>

  /** Keyword arguments (`**filters`, `data`): attribute name to value. */
  type Fields = map<string, Value>

  /** Python truthiness of a value (`if from_date and to_date`). */
  predicate Truthy(v: Value)
  {
    match v
    case Null => false
    case Bool(b) => b
    case Int(i) => i != 0
    case Str(s) => s != ""
    case Time(_) => true
  }

  /** An attribute that was never set reads as NULL once the row is stored. */
  function Get(r: Record, k: string): Value
  {
    if k in r then r[k] else Null
  }

  /** `filter_by(**filters)`: every filter key equals the record's attribute
      (a None filter value is `IS NULL`). */
  predicate Matches(r: Record, filters: Fields)
  {
    forall k :: k in filters ==> Get(r, k) == filters[k]
  }

  /** `setdefault(k, v)`: the caller's own entry for `k` is kept; otherwise `k := v`. */
  function SetDefault(f: Fields, k: string, v: Value): (r: Fields)
    ensures k in r && r[k] == (if k in f then f[k] else v)
    ensures r.Keys == f.Keys + {k}
    ensures forall j :: j in f && j != k ==> r[j] == f[j]
  {
    if k in f then f else f[k := v]
  }

  /** Lemma: a defaulted filter set selects what the caller's filters select,
      narrowed by `k == v` exactly when the caller said nothing about `k`. */
  lemma SetDefaultMatches(x: Record, f: Fields, k: string, v: Value)
    ensures Matches(x, SetDefault(f, k, v)) <==> Matches(x, f) && (k in f || Get(x, k) == v)
  {
    var g := SetDefault(f, k, v);
    if Matches(x, g) {
      forall j | j in f ensures Get(x, j) == f[j] {
        assert j in g;
      }
    }
    if Matches(x, f) && (k in f || Get(x, k) == v) {
      forall j | j in g ensures Get(x, j) == g[j] {
        if j != k { assert j in f; }
      }
    }
  }

  // ---------------------------------------------------------------------
  // The first match (what `result.scalars().first()` returns on an
  // unordered query: the first matching row in the store's order)
  // ---------------------------------------------------------------------

  /** `i` is the position of the first record of `rows` that matches. */
  predicate IsFirstMatch(rows: seq<Record>, f: Fields, i: int)
  {
    0 <= i < |rows| && Matches(rows[i], f) && forall j :: 0 <= j < i ==> !Matches(rows[j], f)
  }

  function FirstMatch(rows: seq<Record>, f: Fields): (r: Option<nat>)
    ensures r.Some? ==> IsFirstMatch(rows, f, r.value)
    ensures r.None? ==> forall j :: 0 <= j < |rows| ==> !Matches(rows[j], f)
  {
    if rows == [] then None
    else if Matches(rows[0], f) then Some(0)
    else match FirstMatch(rows[1..], f)
      case None => None
      case Some(i) => Some(i + 1)
  }

  // ---------------------------------------------------------------------
  // The database's order on column values
  // ---------------------------------------------------------------------

  /** Kinds are never mixed within one column; between kinds an arbitrary
      fixed order is used. NULL is the largest value, so `DESC` lists NULLs
      first, as PostgreSQL does. */
  function Rank(v: Value): nat
  {
    match v
    case Bool(_) => 0
    case Int(_) => 1
    case Str(_) => 2
    case Time(_) => 3
    case Null => 4
  }

  /** Text order: lexicographic on code points. */
  predicate TextLe(s: string, t: string)
  {
    if s == [] then true
    else if t == [] then false
    else s[0] < t[0] || (s[0] == t[0] && TextLe(s[1..], t[1..]))
  }

  /** `a <= b` in the database's order. */
  predicate Le(a: Value, b: Value)
  {
    if Rank(a) != Rank(b) then Rank(a) < Rank(b)
    else match (a, b)
      case (Bool(x), Bool(y)) => !x || y
      case (Int(x), Int(y)) => x <= y
      case (Str(x), Str(y)) => TextLe(x, y)
      case (Time(x), Time(y)) => x <= y
      case _ => true
  }

  lemma {:induction false} TextLeTotal(s: string, t: string)
    ensures TextLe(s, t) || TextLe(t, s)
  {
    if s != [] && t != [] && s[0] == t[0] {
      TextLeTotal(s[1..], t[1..]);
    }
  }

  lemma {:induction false} TextLeTransitive(s: string, t: string, u: string)
    requires TextLe(s, t) && TextLe(t, u)
    ensures TextLe(s, u)
  {
    if s != [] && t != [] && u != [] && s[0] == t[0] && t[0] == u[0] {
      TextLeTransitive(s[1..], t[1..], u[1..]);
    }
  }

  /** Lemma: any two values are comparable. */
  lemma LeTotal(a: Value, b: Value)
    ensures Le(a, b) || Le(b, a)
  {
    if a.Str? && b.Str? {
      TextLeTotal(a.s, b.s);
    }
  }

  /** Lemma: the order is transitive. */
  lemma LeTransitive(a: Value, b: Value, c: Value)
    requires Le(a, b) && Le(b, c)
    ensures Le(a, c)
  {
    if a.Str? && b.Str? && c.Str? {
      TextLeTransitive(a.s, b.s, c.s);
    }
  }

  // ---------------------------------------------------------------------
  // ORDER BY <column> DESC
  // ---------------------------------------------------------------------

  /** Every record is at least as large in column `k` as every later one. */
  predicate SortedDesc(s: seq<Record>, k: string)
  {
    forall i, j :: 0 <= i < j < |s| ==> Le(Get(s[j], k), Get(s[i], k))
  }

  /** Insert `x` in front of the first record that is not larger in column `k`. */
  function Insert(x: Record, s: seq<Record>, k: string): (r: seq<Record>)
    ensures multiset(r) == multiset(s) + multiset{x}
  {
    if s == [] then [x]
    else if Le(Get(s[0], k), Get(x, k)) then [x] + s
    else
      assert s == [s[0]] + s[1..];
      [s[0]] + Insert(x, s[1..], k)
  }

  /** The rows in descending order of column `k`; ties are in no promised order. */
  function SortDesc(s: seq<Record>, k: string): (r: seq<Record>)
    ensures multiset(r) == multiset(s)
  {
    if s == [] then []
    else
      assert s == [s[0]] + s[1..];
      Insert(s[0], SortDesc(s[1..], k), k)
  }

  lemma {:induction false} InsertSorted(x: Record, s: seq<Record>, k: string)
    requires SortedDesc(s, k)
    ensures SortedDesc(Insert(x, s, k), k)
  {
    if s == [] {
    } else if Le(Get(s[0], k), Get(x, k)) {
      var r := [x] + s;
      forall i, j | 0 <= i < j < |r| ensures Le(Get(r[j], k), Get(r[i], k)) {
        if i == 0 && j > 1 {
          LeTransitive(Get(s[j - 1], k), Get(s[0], k), Get(x, k));
        }
      }
    } else {
      LeTotal(Get(s[0], k), Get(x, k));
      var tail := Insert(x, s[1..], k);
      InsertSorted(x, s[1..], k);
      var r := [s[0]] + tail;
      forall i, j | 0 <= i < j < |r| ensures Le(Get(r[j], k), Get(r[i], k)) {
        if i == 0 {
          var y := r[j];
          assert y in multiset(tail);
          assert y in multiset(s[1..]) || y == x;
          if y != x {
            var m :| 1 <= m < |s| && s[m] == y by {
              assert y in s[1..];
            }
          }
        }
      }
    }
  }

  /** Lemma: `SortDesc` returns the rows it was given, in descending order. */
  lemma {:induction false} SortDescSorted(s: seq<Record>, k: string)
    ensures SortedDesc(SortDesc(s, k), k)
  {
    if s != [] {
      SortDescSorted(s[1..], k);
      InsertSorted(s[0], SortDesc(s[1..], k), k);
    }
  }

  /** Lemma: in a list sorted in descending order, the head is the largest. */
  lemma HeadIsGreatest(s: seq<Record>, k: string, x: Record)
    requires SortedDesc(s, k) && x in s
    ensures Le(Get(x, k), Get(s[0], k))
  {
    var j :| 0 <= j < |s| && s[j] == x;
    if j == 0 {
      LeTotal(Get(x, k), Get(x, k));
    }
  }
}
