/** A MySQL table with an AUTO_INCREMENT primary key `id` and one UNIQUE
    integer key, as the plugin's two tables are declared. The table is the
    sequence of its rows in ascending `id` order; `nextId` is the value the
    next insert receives. `REPLACE`, `UPDATE ... WHERE key = k`, `TRUNCATE`,
    `WHERE` filters and `LIMIT` are defined here once for both tables. */
module Table {
  import opened PhpValues

  /** One row: the primary key, the unique source key and the other columns. */
  datatype Row<A> = Row(id: nat, key: int, cols: A)

  /** Row ids ascend along the sequence and are below the next auto-increment
      value; the unique key holds. */
  ghost predicate Valid<A>(rows: seq<Row<A>>, nextId: nat) {
    && 1 <= nextId
    && (forall i, j :: 0 <= i < j < |rows| ==> rows[i].id < rows[j].id)
    && (forall i :: 0 <= i < |rows| ==> 1 <= rows[i].id < nextId)
    && (forall i, j :: 0 <= i < j < |rows| ==> rows[i].key != rows[j].key)
  }

  /** Ids strictly ascend along `rows` (the result order of `ORDER BY id ASC`). */
  ghost predicate IdsAscending<A>(rows: seq<Row<A>>) {
    forall i, j :: 0 <= i < j < |rows| ==> rows[i].id < rows[j].id
  }

  function KeysOf<A>(rows: seq<Row<A>>): set<int> {
    set i | 0 <= i < |rows| :: rows[i].key
  }

  /** The row holding `key`, if any. */
  function Find<A>(rows: seq<Row<A>>, key: int): Option<Row<A>> {
    if rows == [] then None
    else if rows[0].key == key then Some(rows[0])
    else Find(rows[1..], key)
  }

  /** The rows whose key differs from `key`, in their order. */
  function Without<A>(rows: seq<Row<A>>, key: int): (r: seq<Row<A>>)
    ensures |r| <= |rows|
    ensures forall i :: 0 <= i < |r| ==> r[i].key != key
  {
    if rows == [] then []
    else (if rows[0].key == key then [] else [rows[0]]) + Without(rows[1..], key)
  }

  /** `REPLACE INTO`: the row holding the same key, if any, is deleted and a
      row with a fresh id and the given columns is inserted. */
  function Replace<A>(rows: seq<Row<A>>, nextId: nat, key: int, cols: A): (r: (seq<Row<A>>, nat))
    ensures r.1 == nextId + 1 && 1 <= |r.0| <= |rows| + 1
    ensures r.0[|r.0| - 1] == Row(nextId, key, cols)
    ensures forall i :: 0 <= i < |r.0| - 1 ==> r.0[i].key != key
  {
    var kept := Without(rows, key);
    assert forall i :: 0 <= i < |kept| ==> (kept + [Row(nextId, key, cols)])[i] == kept[i];
    (kept + [Row(nextId, key, cols)], nextId + 1)
  }

  /** A run of successful `REPLACE` statements, in order. */
  function UpsertAll<A>(rows: seq<Row<A>>, nextId: nat, writes: seq<(int, A)>): (seq<Row<A>>, nat)
    decreases |writes|
  {
    if writes == [] then (rows, nextId)
    else
      var before := UpsertAll(rows, nextId, writes[..|writes| - 1]);
      var w := writes[|writes| - 1];
      Replace(before.0, before.1, w.0, w.1)
  }

  /** The columns of the last write to `key` among `writes`. */
  function LastFor<A>(writes: seq<(int, A)>, key: int): Option<A> {
    if writes == [] then None
    else if writes[|writes| - 1].0 == key then Some(writes[|writes| - 1].1)
    else LastFor(writes[..|writes| - 1], key)
  }

  function WriteKeys<A>(writes: seq<(int, A)>): set<int> {
    set i | 0 <= i < |writes| :: writes[i].0
  }

  /** `UPDATE ... SET ... WHERE key = k`: `f` rewrites the columns of every
      matching row. */
  function Update<A>(rows: seq<Row<A>>, key: int, f: A -> A): (r: seq<Row<A>>)
    ensures |r| == |rows|
    ensures forall i :: 0 <= i < |rows| ==>
      && r[i].id == rows[i].id
      && r[i].key == rows[i].key
      && r[i].cols == (if rows[i].key == key then f(rows[i].cols) else rows[i].cols)
  {
    if rows == [] then []
    else [if rows[0].key == key then rows[0].(cols := f(rows[0].cols)) else rows[0]]
         + Update(rows[1..], key, f)
  }

  /** `SELECT ... WHERE p ORDER BY id ASC`. */
  function Where<A>(rows: seq<Row<A>>, p: A -> bool): (r: seq<Row<A>>)
    ensures |r| <= |rows|
    ensures forall i :: 0 <= i < |r| ==> p(r[i].cols)
  {
    if rows == [] then []
    else (if p(rows[0].cols) then [rows[0]] else []) + Where(rows[1..], p)
  }

  /** `LIMIT n`. A negative limit is a syntax error in MySQL, and the failed
      query yields no rows. */
  function Limit<T>(s: seq<T>, limit: int): (r: seq<T>)
    ensures limit < 0 ==> r == []
    ensures limit >= 0 ==> |r| == if limit < |s| then limit else |s|
    ensures forall i :: 0 <= i < |r| ==> r[i] == s[i]
  {
    if limit < 0 then [] else if limit < |s| then s[..limit] else s
  }

  /** The successful writes of a batch, in order: element `i` is written when
      `write` can build its row (no NOT NULL column would be NULL) and the
      database reports success for statement `i` (`ok(i)`). */
  function Writes<A>(batch: seq<Value>, ok: nat -> bool, write: Value -> Option<(int, A)>): seq<(int, A)>
    decreases |batch|
  {
    if batch == [] then []
    else
      var i := |batch| - 1;
      Writes(batch[..i], ok, write) + (if ok(i) && write(batch[i]).Some? then [write(batch[i]).value] else [])
  }

  /** The position of the last element of `batch` written under `key`. */
  function LastWrite<A>(batch: seq<Value>, ok: nat -> bool, write: Value -> Option<(int, A)>, key: int): Option<nat>
    decreases |batch|
  {
    if batch == [] then None
    else
      var i := |batch| - 1;
      if ok(i) && write(batch[i]).Some? && write(batch[i]).value.0 == key then Some(i)
      else LastWrite(batch[..i], ok, write, key)
  }

  // ---------------------------------------------------------------- lemmas

  lemma {:induction false} FindSpec<A>(rows: seq<Row<A>>, key: int)
    ensures Find(rows, key).Some? <==> key in KeysOf(rows)
    ensures Find(rows, key).Some? ==> Find(rows, key).value in rows && Find(rows, key).value.key == key
  {
    if rows != [] {
      FindSpec(rows[1..], key);
      assert rows == [rows[0]] + rows[1..];
      assert KeysOf(rows) == {rows[0].key} + KeysOf(rows[1..]);
    }
  }

  /** Under the unique key, the row found for `key` is the only row holding it. */
  lemma FindUnique<A>(rows: seq<Row<A>>, nextId: nat, i: nat)
    requires Valid(rows, nextId) && i < |rows|
    ensures Find(rows, rows[i].key) == Some(rows[i])
  {
    if i > 0 {
      assert rows[0].key != rows[i].key;
      assert Valid(rows[1..], nextId);
      FindUnique(rows[1..], nextId, i - 1);
    }
  }

  lemma {:induction false} WithoutMember<A>(rows: seq<Row<A>>, key: int, r: Row<A>)
    ensures r in Without(rows, key) <==> r in rows && r.key != key
  {
    if rows != [] {
      WithoutMember(rows[1..], key, r);
      assert rows == [rows[0]] + rows[1..];
    }
  }

  lemma {:induction false} WithoutValid<A>(rows: seq<Row<A>>, nextId: nat, key: int)
    requires Valid(rows, nextId)
    ensures Valid(Without(rows, key), nextId)
  {
    if rows != [] {
      var rest := rows[1..];
      assert Valid(rest, nextId);
      WithoutValid(rest, nextId, key);
      var tail := Without(rest, key);
      if rows[0].key != key {
        var w := Without(rows, key);
        assert w[0] == rows[0] && w[1..] == tail;
        forall j | 0 <= j < |tail|
          ensures rows[0].id < tail[j].id && rows[0].key != tail[j].key
        {
          WithoutMember(rest, key, tail[j]);
          var k :| 0 <= k < |rest| && rest[k] == tail[j];
          assert rows[k + 1] == tail[j];
        }
        assert forall i :: 0 < i < |w| ==> w[i] == tail[i - 1];
      } else {
        assert Without(rows, key) == tail;
      }
    }
  }

  lemma {:induction false} FindWithout<A>(rows: seq<Row<A>>, key: int, k: int)
    ensures Find(Without(rows, key), k) == if k == key then None else Find(rows, k)
  {
    if rows != [] {
      FindWithout(rows[1..], key, k);
      var w := Without(rows, key);
      if rows[0].key != key {
        assert w == [rows[0]] + Without(rows[1..], key);
        assert w[0] == rows[0] && w[1..] == Without(rows[1..], key);
      } else {
        assert w == [] + Without(rows[1..], key);
        assert w == Without(rows[1..], key);
      }
    }
  }

  lemma {:induction false} FindAppend<A>(rows: seq<Row<A>>, r: Row<A>, k: int)
    ensures Find(rows + [r], k) == if Find(rows, k).Some? then Find(rows, k)
                                   else if r.key == k then Some(r) else None
  {
    if rows != [] {
      assert (rows + [r])[1..] == rows[1..] + [r];
      FindAppend(rows[1..], r, k);
    }
  }

  lemma ReplaceValid<A>(rows: seq<Row<A>>, nextId: nat, key: int, cols: A)
    requires Valid(rows, nextId)
    ensures Valid(Replace(rows, nextId, key, cols).0, Replace(rows, nextId, key, cols).1)
  {
    WithoutValid(rows, nextId, key);
    var w := Without(rows, key);
    forall i | 0 <= i < |w| ensures w[i].key != key && w[i].id < nextId {
      assert w[i] in w;
      WithoutMember(rows, key, w[i]);
      var j :| 0 <= j < |rows| && rows[j] == w[i];
    }
  }

  lemma FindReplace<A>(rows: seq<Row<A>>, nextId: nat, key: int, cols: A, k: int)
    ensures Find(Replace(rows, nextId, key, cols).0, k)
         == if k == key then Some(Row(nextId, key, cols)) else Find(rows, k)
  {
    FindAppend(Without(rows, key), Row(nextId, key, cols), k);
    FindWithout(rows, key, k);
    FindWithout(rows, key, key);
  }

  /** Upserts keep the table valid and only ever raise the auto-increment value. */
  lemma {:induction false} UpsertAllValid<A>(rows: seq<Row<A>>, nextId: nat, writes: seq<(int, A)>)
    requires Valid(rows, nextId)
    ensures Valid(UpsertAll(rows, nextId, writes).0, UpsertAll(rows, nextId, writes).1)
    ensures UpsertAll(rows, nextId, writes).1 == nextId + |writes|
  {
    if writes != [] {
      var front := writes[..|writes| - 1];
      UpsertAllValid(rows, nextId, front);
      var before := UpsertAll(rows, nextId, front);
      var w := writes[|writes| - 1];
      ReplaceValid(before.0, before.1, w.0, w.1);
    }
  }

  /** Last write wins: after a run of upserts, the row holding `k` carries the
      columns of the last write to `k` and a fresh id; a key nobody wrote is
      left as it was. */
  lemma {:induction false} UpsertAllFind<A>(rows: seq<Row<A>>, nextId: nat, writes: seq<(int, A)>, k: int)
    ensures var r := Find(UpsertAll(rows, nextId, writes).0, k);
            if LastFor(writes, k).Some?
            then r.Some? && r.value.key == k && r.value.cols == LastFor(writes, k).value
                 && nextId <= r.value.id < nextId + |writes|
            else r == Find(rows, k)
  {
    if writes != [] {
      var front := writes[..|writes| - 1];
      UpsertAllFind(rows, nextId, front, k);
      var before := UpsertAll(rows, nextId, front);
      var w := writes[|writes| - 1];
      FindReplace(before.0, before.1, w.0, w.1, k);
      UpsertAllNext(rows, nextId, front);
    }
  }

  lemma {:induction false} UpsertAllNext<A>(rows: seq<Row<A>>, nextId: nat, writes: seq<(int, A)>)
    ensures UpsertAll(rows, nextId, writes).1 == nextId + |writes|
  {
    if writes != [] {
      UpsertAllNext(rows, nextId, writes[..|writes| - 1]);
    }
  }

  /** The keys held after a run of upserts are the old keys and the written ones. */
  lemma {:induction false} UpsertAllKeys<A>(rows: seq<Row<A>>, nextId: nat, writes: seq<(int, A)>)
    ensures KeysOf(UpsertAll(rows, nextId, writes).0) == KeysOf(rows) + WriteKeys(writes)
  {
    if writes != [] {
      var front := writes[..|writes| - 1];
      var w := writes[|writes| - 1];
      UpsertAllKeys(rows, nextId, front);
      var before := UpsertAll(rows, nextId, front);
      var after := Without(before.0, w.0) + [Row(before.1, w.0, w.1)];
      assert KeysOf(after) == KeysOf(before.0) + {w.0} by {
        forall x | x in KeysOf(before.0) + {w.0} ensures x in KeysOf(after) {
          if x != w.0 {
            var i :| 0 <= i < |before.0| && before.0[i].key == x;
            var r := before.0[i];
            WithoutMember(before.0, w.0, r);
            assert r in after;
          } else {
            assert after[|after| - 1].key == x;
          }
        }
        forall x | x in KeysOf(after) ensures x in KeysOf(before.0) + {w.0} {
          var i :| 0 <= i < |after| && after[i].key == x;
          if i < |after| - 1 {
            var r := after[i];
            assert r in Without(before.0, w.0);
            WithoutMember(before.0, w.0, r);
            var j :| 0 <= j < |before.0| && before.0[j] == r;
          }
        }
      }
      assert writes == front + [w];
      assert WriteKeys(writes) == WriteKeys(front) + {w.0};
    }
  }

  /** Under the unique key, the row count is the number of distinct keys, so
      `COUNT(*) - COUNT(DISTINCT key)` is zero. */
  lemma {:induction false} ValidCountIsKeyCount<A>(rows: seq<Row<A>>, nextId: nat)
    requires Valid(rows, nextId)
    ensures |KeysOf(rows)| == |rows|
  {
    if rows != [] {
      var rest := rows[1..];
      assert Valid(rest, nextId);
      ValidCountIsKeyCount(rest, nextId);
      KeysOfHead(rows);
      forall j | 0 <= j < |rest| ensures rest[j].key != rows[0].key {
        assert rest[j] == rows[j + 1];
      }
      assert rows[0].key !in KeysOf(rest);
    }
  }

  /** Replaying the same run of upserts writes the same columns under the
      same keys and does not change the row count. */
  lemma UpsertReplay<A>(rows: seq<Row<A>>, nextId: nat, writes: seq<(int, A)>, k: int)
    requires Valid(rows, nextId)
    ensures var once := UpsertAll(rows, nextId, writes);
            var twice := UpsertAll(once.0, once.1, writes);
            && KeysOf(twice.0) == KeysOf(once.0)
            && |twice.0| == |once.0|
            && (Find(twice.0, k).Some? <==> Find(once.0, k).Some?)
            && (Find(twice.0, k).Some? ==> Find(twice.0, k).value.cols == Find(once.0, k).value.cols)
  {
    var once := UpsertAll(rows, nextId, writes);
    UpsertAllValid(rows, nextId, writes);
    UpsertAllValid(once.0, once.1, writes);
    var twice := UpsertAll(once.0, once.1, writes);
    UpsertAllKeys(rows, nextId, writes);
    UpsertAllKeys(once.0, once.1, writes);
    ValidCountIsKeyCount(once.0, once.1);
    ValidCountIsKeyCount(twice.0, twice.1);
    UpsertAllFind(rows, nextId, writes, k);
    UpsertAllFind(once.0, once.1, writes, k);
  }

  /** The row `Find` returns after an update by `key`. */
  function Updated<A>(found: Option<Row<A>>, key: int, f: A -> A, k: int): Option<Row<A>> {
    if k == key && found.Some? then Some(found.value.(cols := f(found.value.cols))) else found
  }

  /** An update by key keeps the table valid and changes exactly the row that
      holds the key. */
  lemma UpdateValid<A>(rows: seq<Row<A>>, nextId: nat, key: int, f: A -> A)
    requires Valid(rows, nextId)
    ensures Valid(Update(rows, key, f), nextId)
    ensures forall k :: Find(Update(rows, key, f), k) == Updated(Find(rows, k), key, f, k)
  {
    forall k ensures Find(Update(rows, key, f), k) == Updated(Find(rows, k), key, f, k) {
      FindUpdate(rows, key, f, k);
    }
  }

  lemma {:induction false} FindUpdate<A>(rows: seq<Row<A>>, key: int, f: A -> A, k: int)
    ensures Find(Update(rows, key, f), k) == Updated(Find(rows, k), key, f, k)
  {
    if rows != [] {
      FindUpdate(rows[1..], key, f, k);
    }
  }

  /** A `WHERE` filter returns exactly the matching rows. */
  lemma {:induction false} WhereMember<A>(rows: seq<Row<A>>, p: A -> bool, r: Row<A>)
    ensures r in Where(rows, p) <==> r in rows && p(r.cols)
  {
    if rows != [] {
      WhereMember(rows[1..], p, r);
      assert rows == [rows[0]] + rows[1..];
    }
  }

  /** A `WHERE` filter keeps table order, so ascending ids stay ascending. */
  lemma {:induction false} WhereOrder<A>(rows: seq<Row<A>>, p: A -> bool)
    ensures |Where(rows, p)| <= |rows|
    ensures IdsAscending(rows) ==> IdsAscending(Where(rows, p))
  {
    if rows != [] {
      WhereOrder(rows[1..], p);
      if IdsAscending(rows) {
        assert IdsAscending(rows[1..]);
        var tail := Where(rows[1..], p);
        forall r | r in tail ensures rows[0].id < r.id {
          WhereMember(rows[1..], p, r);
          var j :| 0 <= j < |rows[1..]| && rows[1..][j] == r;
          assert rows[j + 1] == r;
        }
      }
    }
  }

  /** A filtered valid table is valid. */
  lemma WhereValid<A>(rows: seq<Row<A>>, nextId: nat, p: A -> bool)
    requires Valid(rows, nextId)
    ensures Valid(Where(rows, p), nextId)
  {
    var w := Where(rows, p);
    WhereOrder(rows, p);
    forall i | 0 <= i < |w| ensures 1 <= w[i].id < nextId {
      WhereMember(rows, p, w[i]);
    }
    forall m, n | 0 <= m < n < |w| ensures w[m].key != w[n].key {
      WhereMember(rows, p, w[m]);
      WhereMember(rows, p, w[n]);
      var a :| 0 <= a < |rows| && rows[a] == w[m];
      var b :| 0 <= b < |rows| && rows[b] == w[n];
      assert a != b;
    }
  }

  /** A filter is empty exactly when no row matches. */
  lemma {:induction false} WhereEmpty<A>(rows: seq<Row<A>>, p: A -> bool)
    ensures Where(rows, p) == [] <==> forall i :: 0 <= i < |rows| ==> !p(rows[i].cols)
  {
    if rows != [] {
      WhereEmpty(rows[1..], p);
      assert forall i :: 1 <= i < |rows| ==> rows[i] == rows[1..][i - 1];
    }
  }

  /** `ORDER BY id ASC LIMIT n` returns the matching rows of smallest id: at
      most `n` of them, and every matching row left out has a larger id than
      every row returned. */
  lemma SmallestIdsFirst<A>(rows: seq<Row<A>>, p: A -> bool, limit: int)
    requires IdsAscending(rows)
    ensures var r := Limit(Where(rows, p), limit);
            && (limit >= 0 ==> |r| <= limit)
            && (limit >= 0 ==> |r| == if limit < |Where(rows, p)| then limit else |Where(rows, p)|)
            && (r == [] <==> limit <= 0 || forall i :: 0 <= i < |rows| ==> !p(rows[i].cols))
            && IdsAscending(r)
            && (forall x :: x in r ==> x in rows && p(x.cols))
            && (forall x, y :: x in rows && p(x.cols) && x !in r && y in r ==> y.id < x.id)
  {
    WhereOrder(rows, p);
    var w := Where(rows, p);
    var r := Limit(w, limit);
    WhereEmpty(rows, p);
    forall x | x in r ensures x in rows && p(x.cols) {
      var i :| 0 <= i < |r| && r[i] == x;
      assert w[i] == x;
      WhereMember(rows, p, x);
    }
    forall x, y | x in rows && p(x.cols) && x !in r && y in r ensures y.id < x.id {
      WhereMember(rows, p, x);
      var i :| 0 <= i < |w| && w[i] == x;
      var j :| 0 <= j < |r| && r[j] == y;
      assert w[j] == y;
      assert |r| <= i;
    }
  }

  /** Writing one more batch element adds at most its own row. */
  lemma WritesStep<A>(batch: seq<Value>, i: nat, ok: nat -> bool, write: Value -> Option<(int, A)>)
    requires i < |batch|
    ensures Writes(batch[..i + 1], ok, write)
         == Writes(batch[..i], ok, write) + (if ok(i) && write(batch[i]).Some? then [write(batch[i]).value] else [])
  {
    assert batch[..i + 1][..i] == batch[..i];
  }

  /** One more write is one more `REPLACE`. */
  lemma UpsertAllStep<A>(rows: seq<Row<A>>, nextId: nat, writes: seq<(int, A)>, w: (int, A))
    ensures UpsertAll(rows, nextId, writes + [w])
         == (var before := UpsertAll(rows, nextId, writes); Replace(before.0, before.1, w.0, w.1))
  {
    assert (writes + [w])[..|writes|] == writes;
  }

  /** The keys of a table are its first row's key and the keys of the rest. */
  lemma KeysOfHead<A>(rows: seq<Row<A>>)
    requires rows != []
    ensures KeysOf(rows) == {rows[0].key} + KeysOf(rows[1..])
  {
    forall k | k in KeysOf(rows[1..]) ensures k in KeysOf(rows) {
      var i :| 0 <= i < |rows[1..]| && rows[1..][i].key == k;
      assert rows[i + 1].key == k;
    }
  }

  /** The keys of one more row of a prefix. */
  lemma KeysOfPrefix<A>(rows: seq<Row<A>>, j: nat)
    requires j < |rows|
    ensures KeysOf(rows[..j + 1]) == KeysOf(rows[..j]) + {rows[j].key}
  {
    var a, b := rows[..j + 1], rows[..j];
    assert forall i :: 0 <= i < j ==> a[i] == b[i];
    assert a[j] == rows[j];
  }

  /** A batch never writes more rows than it has elements. */
  lemma {:induction false} WritesBound<A>(batch: seq<Value>, ok: nat -> bool, write: Value -> Option<(int, A)>)
    ensures |Writes(batch, ok, write)| <= |batch|
  {
    if batch != [] {
      WritesBound(batch[..|batch| - 1], ok, write);
    }
  }

  /** The last write to `key` is the row built from the last batch element
      written under `key`. */
  lemma {:induction false} LastForWrites<A>(batch: seq<Value>, ok: nat -> bool, write: Value -> Option<(int, A)>, key: int)
    ensures var j := LastWrite(batch, ok, write, key);
            && (j.Some? ==> && j.value < |batch| && ok(j.value) && write(batch[j.value]).Some?
                            && write(batch[j.value]).value.0 == key
                            && LastFor(Writes(batch, ok, write), key) == Some(write(batch[j.value]).value.1))
            && (j.None? ==> LastFor(Writes(batch, ok, write), key) == None)
            && (forall i: nat :: (j.None? || j.value < i) && i < |batch| && ok(i) && write(batch[i]).Some?
                  ==> write(batch[i]).value.0 != key)
  {
    if batch != [] {
      var i := |batch| - 1;
      var front := Writes(batch[..i], ok, write);
      LastForWrites(batch[..i], ok, write, key);
      assert forall m :: 0 <= m < i ==> batch[..i][m] == batch[m];
      if ok(i) && write(batch[i]).Some? {
        assert Writes(batch, ok, write) == front + [write(batch[i]).value];
        assert (front + [write(batch[i]).value])[..|front|] == front;
      } else {
        assert Writes(batch, ok, write) == front;
      }
    }
  }
}
