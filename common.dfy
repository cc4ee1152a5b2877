/** Values shared by every table of the store: identifiers, optional values, the errors the
    relational store signals, and the generic row-set facts behind `unique`, `unique_together`
    and one-to-one constraints. */
module Common {

  /** A primary key. The source uses `uuid4`; the model draws keys from a counter. */
  type Id = nat

  /** A wall-clock instant in seconds; `timezone.now()` is always an input. */
  type Time = int

  datatype Option<T> = None | Some(value: T)

  /** What the store raises: a violated unique / foreign-key constraint, a missing row on
      `objects.get`, or an update that touched no row. */
  datatype DbError = IntegrityError | DoesNotExist | DatabaseError

  datatype Result<T> = Ok(value: T) | Err(error: DbError)

  /** No two rows of `rows` share a key. */
  predicate UniqueBy<T, K(==)>(rows: seq<T>, key: T -> K) {
    forall i, j :: 0 <= i < j < |rows| ==> key(rows[i]) != key(rows[j])
  }

  /** Some row of `rows` has key `k`. */
  predicate HasKey<T, K(==)>(rows: seq<T>, key: T -> K, k: K) {
    exists i :: 0 <= i < |rows| && key(rows[i]) == k
  }

  /** Every value `f` reads off a row is below `n`. */
  predicate AllBelow<T>(rows: seq<T>, f: T -> nat, n: nat) {
    forall i :: 0 <= i < |rows| ==> f(rows[i]) < n
  }

  /** `objects.get(key=k)`: the first row with key `k`, or None for DoesNotExist. */
  function Find<T, K(==)>(rows: seq<T>, key: T -> K, k: K): (r: Option<T>)
    ensures r.Some? ==> r.value in rows && key(r.value) == k
    ensures r.None? <==> !HasKey(rows, key, k)
  {
    if rows == [] then None
    else if key(rows[0]) == k then Some(rows[0])
    else
      var r := Find(rows[1..], key, k);
      assert HasKey(rows, key, k) ==> HasKey(rows[1..], key, k) by {
        if HasKey(rows, key, k) {
          var i :| 0 <= i < |rows| && key(rows[i]) == k;
          assert i != 0 && key(rows[1..][i - 1]) == k;
        }
      }
      assert HasKey(rows[1..], key, k) ==> HasKey(rows, key, k) by {
        if HasKey(rows[1..], key, k) {
          var i :| 0 <= i < |rows[1..]| && key(rows[1..][i]) == k;
          assert key(rows[i + 1]) == k;
        }
      }
      r
  }

  /** Under a uniqueness constraint, the row `Find` returns is the only row with that key. */
  lemma FindUnique<T, K>(rows: seq<T>, key: T -> K, x: T)
    requires UniqueBy(rows, key) && x in rows
    ensures Find(rows, key, key(x)) == Some(x)
  {
    var r := Find(rows, key, key(x));
    var i :| 0 <= i < |rows| && rows[i] == x;
    assert HasKey(rows, key, key(x));
    var j :| 0 <= j < |rows| && rows[j] == r.value;
    assert key(rows[i]) == key(rows[j]);
  }

  /** Under a uniqueness constraint, two rows with the same key are the same row. */
  lemma UniqueBySame<T, K>(rows: seq<T>, key: T -> K, x: T, y: T)
    requires UniqueBy(rows, key) && x in rows && y in rows && key(x) == key(y)
    ensures x == y
  {
    var i :| 0 <= i < |rows| && rows[i] == x;
    var j :| 0 <= j < |rows| && rows[j] == y;
    assert key(rows[i]) == key(rows[j]);
  }

  /** Appending a row whose key is new keeps the constraint. */
  lemma UniqueByAppend<T, K>(rows: seq<T>, key: T -> K, x: T)
    requires UniqueBy(rows, key) && !HasKey(rows, key, key(x))
    ensures UniqueBy(rows + [x], key)
  {
    var rows' := rows + [x];
    forall i, j | 0 <= i < j < |rows'| ensures key(rows'[i]) != key(rows'[j]) {
      if j == |rows| {
        assert rows'[i] == rows[i];
      } else {
        assert rows'[i] == rows[i] && rows'[j] == rows[j];
      }
    }
  }

  /** `get_or_create(key=..., defaults=...)`: the existing row with `row`'s key, or `row`
      appended; the flag says whether a row was created. */
  function GetOrCreate<T, K(==)>(rows: seq<T>, key: T -> K, row: T): (r: (seq<T>, T, bool))
    ensures r.2 <==> !HasKey(rows, key, key(row))
    ensures key(r.1) == key(row) && r.1 in r.0
    ensures r.2 ==> r.0 == rows + [row] && r.1 == row
    ensures !r.2 ==> r.0 == rows
    ensures UniqueBy(rows, key) ==> UniqueBy(r.0, key)
  {
    match Find(rows, key, key(row))
    case Some(existing) => (rows, existing, false)
    case None =>
      assert UniqueBy(rows, key) ==> UniqueBy(rows + [row], key) by {
        if UniqueBy(rows, key) { UniqueByAppend(rows, key, row); }
      }
      (rows + [row], row, true)
  }

  /** A key present before an append is present after it. */
  lemma HasKeyAppend<T, K>(rows: seq<T>, key: T -> K, extra: seq<T>, k: K)
    requires HasKey(rows, key, k)
    ensures HasKey(rows + extra, key, k)
  {
    var i :| 0 <= i < |rows| && key(rows[i]) == k;
    assert (rows + extra)[i] == rows[i];
  }

  /** A key present in a table is present in any table that keeps its rows in place. */
  lemma HasKeyKept<T, K>(rows: seq<T>, rows': seq<T>, key: T -> K, k: K)
    requires HasKey(rows, key, k) && |rows| <= |rows'|
    requires forall i :: 0 <= i < |rows| ==> rows'[i] == rows[i]
    ensures HasKey(rows', key, k)
  {
    var i :| 0 <= i < |rows| && key(rows[i]) == k;
    assert key(rows'[i]) == k;
  }

  /** A row of a table is found under its own key. */
  lemma HasKeyOf<T, K>(rows: seq<T>, key: T -> K, x: T)
    requires x in rows
    ensures HasKey(rows, key, key(x))
  {
    var i :| 0 <= i < |rows| && rows[i] == x;
  }

  /** The last row of a table is found under its own key. */
  lemma HasKeyLast<T, K>(rows: seq<T>, key: T -> K, x: T)
    ensures HasKey(rows + [x], key, key(x))
  {
    assert (rows + [x])[|rows|] == x;
  }

  /** Bounds survive appending a row that respects them. */
  lemma AllBelowAppend<T>(rows: seq<T>, f: T -> nat, n: nat, n': nat, x: T)
    requires AllBelow(rows, f, n) && n <= n' && f(x) < n'
    ensures AllBelow(rows + [x], f, n')
  {
    forall i | 0 <= i < |rows + [x]| ensures f((rows + [x])[i]) < n' {
      if i < |rows| { assert (rows + [x])[i] == rows[i]; }
    }
  }

  /** A key that exists is the value of some row, so it lies under every bound on that value. */
  lemma HasKeyBelow<T>(rows: seq<T>, f: T -> nat, n: nat, k: nat)
    requires AllBelow(rows, f, n) && HasKey(rows, f, k)
    ensures k < n
  {
  }

  /** A primary key: unique, and drawn before `n`, so `n` itself is still free. */
  predicate Keys<T>(rows: seq<T>, id: T -> nat, n: nat) {
    UniqueBy(rows, id) && AllBelow(rows, id, n)
  }

  /** Inserting a row under the next free key keeps the primary key, with the counter moved on. */
  lemma KeysInsert<T>(rows: seq<T>, id: T -> nat, n: nat, x: T)
    requires Keys(rows, id, n) && id(x) == n
    ensures Keys(rows + [x], id, n + 1)
  {
    UniqueByAppend(rows, id, x);
    AllBelowAppend(rows, id, n, n + 1, x);
  }

  /** Every value `f` reads off a row of `rows` is the key of some row of `targets`: a foreign
      key with referential integrity. */
  predicate RefsTo<T, U>(rows: seq<T>, f: T -> nat, targets: seq<U>, key: U -> nat) {
    forall i :: 0 <= i < |rows| ==> HasKey(targets, key, f(rows[i]))
  }

  /** A row whose reference resolves keeps the foreign key when appended. */
  lemma RefsToAppendRow<T, U>(rows: seq<T>, f: T -> nat, targets: seq<U>, key: U -> nat, x: T)
    requires RefsTo(rows, f, targets, key) && HasKey(targets, key, f(x))
    ensures RefsTo(rows + [x], f, targets, key)
  {
    forall i | 0 <= i < |rows + [x]| ensures HasKey(targets, key, f((rows + [x])[i])) {
      if i < |rows| { assert (rows + [x])[i] == rows[i]; }
    }
  }

  /** A table that only grows keeps every reference into it resolving. */
  lemma RefsToAppendTarget<T, U>(rows: seq<T>, f: T -> nat, targets: seq<U>, key: U -> nat, y: U)
    requires RefsTo(rows, f, targets, key)
    ensures RefsTo(rows, f, targets + [y], key)
  {
    forall i | 0 <= i < |rows| ensures HasKey(targets + [y], key, f(rows[i])) {
      HasKeyAppend(targets, key, [y], f(rows[i]));
    }
  }

  /** `rows'` is `rows` with every row's `key` value kept. */
  predicate SameKeys<T, K(==)>(rows: seq<T>, rows': seq<T>, key: T -> K) {
    |rows'| == |rows| && forall i :: 0 <= i < |rows| ==> key(rows'[i]) == key(rows[i])
  }

  /** Rewriting rows without touching a key keeps every fact stated through that key. */
  lemma SameKeysKeep<T, K>(rows: seq<T>, rows': seq<T>, key: T -> K)
    requires SameKeys(rows, rows', key)
    ensures UniqueBy(rows, key) ==> UniqueBy(rows', key)
    ensures forall k :: HasKey(rows, key, k) ==> HasKey(rows', key, k)
  {
    forall k | HasKey(rows, key, k) ensures HasKey(rows', key, k) {
      var i :| 0 <= i < |rows| && key(rows[i]) == k;
      assert key(rows'[i]) == k;
    }
  }

  lemma SameKeysBelow<T>(rows: seq<T>, rows': seq<T>, f: T -> nat, n: nat)
    requires SameKeys(rows, rows', f) && AllBelow(rows, f, n)
    ensures AllBelow(rows', f, n)
  {
  }

  /** References into a table whose keys are kept still resolve. */
  lemma RefsToSameTarget<T, U>(rows: seq<T>, f: T -> nat, targets: seq<U>, targets': seq<U>, key: U -> nat)
    requires RefsTo(rows, f, targets, key) && SameKeys(targets, targets', key)
    ensures RefsTo(rows, f, targets', key)
  {
    SameKeysKeep(targets, targets', key);
  }

  /** Rows whose references are kept still resolve. */
  lemma RefsToSameRows<T, U>(rows: seq<T>, rows': seq<T>, f: T -> nat, targets: seq<U>, key: U -> nat)
    requires RefsTo(rows, f, targets, key) && SameKeys(rows, rows', f)
    ensures RefsTo(rows', f, targets, key)
  {
    forall i | 0 <= i < |rows'| ensures HasKey(targets, key, f(rows'[i])) {
      assert f(rows'[i]) == f(rows[i]);
    }
  }

  /** References into a table whose keys are all below `n` are below `n` too. */
  lemma RefsBelow<T, U>(rows: seq<T>, f: T -> nat, targets: seq<U>, key: U -> nat, n: nat)
    requires RefsTo(rows, f, targets, key) && AllBelow(targets, key, n)
    ensures AllBelow(rows, f, n)
  {
    forall i | 0 <= i < |rows| ensures f(rows[i]) < n {
      HasKeyBelow(targets, key, n, f(rows[i]));
    }
  }

  /** No value occurs twice. */
  predicate Distinct<T(==)>(s: seq<T>) {
    forall i, j :: 0 <= i < j < |s| ==> s[i] != s[j]
  }

  /** A key at or above every drawn key is held by no row. */
  lemma FreeKey<T>(rows: seq<T>, id: T -> nat, n: nat)
    requires AllBelow(rows, id, n)
    ensures !HasKey(rows, id, n)
  {
  }

  /** The first `n` rows, as a queryset slice `[:n]` takes them. */
  function Take<T>(rows: seq<T>, n: nat): (r: seq<T>)
    ensures |r| == if |rows| < n then |rows| else n
    ensures r <= rows
  {
    if |rows| <= n then rows else rows[..n]
  }

  /** The rows in reverse order. */
  function Reversed<T>(rows: seq<T>): (r: seq<T>)
    ensures |r| == |rows|
    ensures forall i :: 0 <= i < |rows| ==> r[i] == rows[|rows| - 1 - i]
  {
    if rows == [] then [] else [rows[|rows| - 1]] + Reversed(rows[..|rows| - 1])
  }

  /** The decimal digits of a natural number, as Python's `str()` and JavaScript's
      `toString()` write it. */
  function Decimal(n: nat): (r: string)
    ensures |r| >= 1
    ensures forall c :: c in r ==> '0' <= c <= '9'
  {
    var d := [('0' as int + n % 10) as char];
    if n < 10 then d else Decimal(n / 10) + d
  }
}
