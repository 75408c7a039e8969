/** A database table as a sequence of rows with an integer primary key: the
    DbSet operations the controllers call (`Find`, `Add`, `Remove`) and the
    replacement of a found row after its fields were assigned. */
module Tables {
  import opened Wrappers
  import Seqs

  predicate HasKey<T>(s: seq<T>, key: T -> int, id: int) {
    exists i :: 0 <= i < |s| && key(s[i]) == id
  }

  /** Every key lies strictly between 0 and the next identity value `next`. */
  predicate KeysBelow<T>(s: seq<T>, key: T -> int, next: int) {
    forall i :: 0 <= i < |s| ==> 0 < key(s[i]) < next
  }

  /** DbSet.Find(id): the row with that primary key, or null. */
  function Find<T>(s: seq<T>, key: T -> int, id: int): (r: Option<T>)
    ensures r.Some? <==> HasKey(s, key, id)
    ensures r.Some? ==> r.value in s && key(r.value) == id
  {
    Seqs.FirstOrNone(s, Seqs.KeyIs(key, id))
  }

  /** The table after the row with key `id` was changed into `x`. */
  function Replace<T>(s: seq<T>, key: T -> int, id: int, x: T): seq<T> {
    seq(|s|, i requires 0 <= i < |s| => if key(s[i]) == id then x else s[i])
  }

  lemma ReplaceAtIndex<T>(s: seq<T>, key: T -> int, id: int, x: T, i: int)
    requires 0 <= i < |s|
    ensures |Replace(s, key, id, x)| == |s|
    ensures Replace(s, key, id, x)[i] == if key(s[i]) == id then x else s[i]
  {
  }

  /** DbSet.Remove of the row with key `id`. */
  function Remove<T>(s: seq<T>, key: T -> int, id: int): seq<T> {
    Seqs.Filter(s, Seqs.KeyIsNot(key, id))
  }

  /** Find finds the row the index search of the same key finds. */
  lemma FindIsFirst<T>(s: seq<T>, key: T -> int, id: int)
    ensures var k := Seqs.FindIndex(s, Seqs.KeyIs(key, id));
      Find(s, key, id) == if k == -1 then None else Some(s[k])
  {
  }

  /** With unique keys, replacing by key changes exactly the one row at `k`. */
  lemma ReplaceAt<T>(s: seq<T>, key: T -> int, id: int, x: T, k: int)
    requires Seqs.UniqueBy(s, key)
    requires 0 <= k < |s| && key(s[k]) == id
    ensures Replace(s, key, id, x) == s[k := x]
  {
    forall i | 0 <= i < |s| && i != k ensures key(s[i]) != id {
      if i < k { assert key(s[i]) != key(s[k]); } else { assert key(s[k]) != key(s[i]); }
    }
  }

  /** Replacing the row of a missing key leaves the table as it was. */
  lemma ReplaceMissing<T>(s: seq<T>, key: T -> int, id: int, x: T)
    requires !HasKey(s, key, id)
    ensures Replace(s, key, id, x) == s
  {
  }

  /** With unique keys, removing by key drops exactly the one row at `k`. */
  lemma {:induction false} RemoveAt<T>(s: seq<T>, key: T -> int, id: int, k: int)
    requires Seqs.UniqueBy(s, key)
    requires 0 <= k < |s| && key(s[k]) == id
    ensures Remove(s, key, id) == s[..k] + s[k + 1..]
  {
    if k == 0 {
      forall i | 0 <= i < |s[1..]| ensures Seqs.KeyIsNot(key, id)(s[1..][i]) {
        assert key(s[0]) != key(s[i + 1]);
      }
      FilterAll(s[1..], Seqs.KeyIsNot(key, id));
      assert s[..0] + s[1..] == s[1..];
    } else {
      assert key(s[0]) != key(s[k]);
      RemoveAt(s[1..], key, id, k - 1);
      assert s[..k] + s[k + 1..] == [s[0]] + (s[1..][..k - 1] + s[1..][k..]);
    }
  }

  lemma {:induction false} FilterAll<T>(s: seq<T>, p: T -> bool)
    requires forall i :: 0 <= i < |s| ==> p(s[i])
    ensures Seqs.Filter(s, p) == s
  {
    if s != [] {
      FilterAll(s[1..], p);
      assert s == [s[0]] + s[1..];
    }
  }

  /** Removing a missing key leaves the table as it was. */
  lemma RemoveMissing<T>(s: seq<T>, key: T -> int, id: int)
    requires !HasKey(s, key, id)
    ensures Remove(s, key, id) == s
  {
    FilterAll(s, Seqs.KeyIsNot(key, id));
  }

  /** Removing by key in a table with unique keys: one row fewer, the key is gone,
      and every other row is still there. */
  lemma RemoveEffect<T>(s: seq<T>, key: T -> int, id: int)
    requires Seqs.UniqueBy(s, key)
    requires HasKey(s, key, id)
    ensures |Remove(s, key, id)| == |s| - 1
    ensures !HasKey(Remove(s, key, id), key, id)
    ensures forall x :: x in s && key(x) != id ==> x in Remove(s, key, id)
    ensures forall x :: x in Remove(s, key, id) ==> x in s
  {
    var k :| 0 <= k < |s| && key(s[k]) == id;
    RemoveAt(s, key, id, k);
  }

  /** A removal keeps the keys unique and below the identity counter. */
  lemma RemoveKeepsKeys<T>(s: seq<T>, key: T -> int, id: int, next: int)
    requires Seqs.UniqueBy(s, key) && KeysBelow(s, key, next)
    ensures Seqs.UniqueBy(Remove(s, key, id), key) && KeysBelow(Remove(s, key, id), key, next)
  {
    if HasKey(s, key, id) {
      var k :| 0 <= k < |s| && key(s[k]) == id;
      RemoveAt(s, key, id, k);
      var r := Remove(s, key, id);
      assert forall i :: 0 <= i < |r| ==> r[i] == (if i < k then s[i] else s[i + 1]);
    } else {
      RemoveMissing(s, key, id);
    }
  }

  /** Appending a row whose key is the next identity value keeps the keys unique. */
  lemma AppendKeepsKeys<T>(s: seq<T>, key: T -> int, x: T, next: int)
    requires Seqs.UniqueBy(s, key) && KeysBelow(s, key, next)
    requires key(x) == next && next > 0
    ensures Seqs.UniqueBy(s + [x], key) && KeysBelow(s + [x], key, next + 1)
  {
  }

  /** A replacement by key that keeps the key changes no row's key. */
  lemma ReplaceSameKeys<T>(s: seq<T>, key: T -> int, id: int, x: T)
    requires key(x) == id
    ensures |Replace(s, key, id, x)| == |s|
    ensures forall i :: 0 <= i < |s| ==> key(Replace(s, key, id, x)[i]) == key(s[i])
  {
  }

  /** ... and so keeps the keys unique and below the identity counter. */
  lemma ReplaceKeepsKeys<T>(s: seq<T>, key: T -> int, id: int, x: T, next: int)
    requires Seqs.UniqueBy(s, key) && KeysBelow(s, key, next)
    requires key(x) == id
    ensures Seqs.UniqueBy(Replace(s, key, id, x), key) && KeysBelow(Replace(s, key, id, x), key, next)
  {
    ReplaceSameKeys(s, key, id, x);
  }

  lemma {:induction false} FindIndexSameKeys<T>(s: seq<T>, t: seq<T>, key: T -> int, v: int)
    requires |s| == |t|
    requires forall i :: 0 <= i < |s| ==> key(s[i]) == key(t[i])
    ensures Seqs.FindIndex(s, Seqs.KeyIs(key, v)) == Seqs.FindIndex(t, Seqs.KeyIs(key, v))
  {
    if s != [] {
      FindIndexSameKeys(s[1..], t[1..], key, v);
    }
  }

  /** After the row with key `id` was changed into `x` (keeping its key), Find
      returns `x` for that key and what it returned before for every other key. */
  lemma ReplaceFound<T>(s: seq<T>, key: T -> int, id: int, x: T)
    requires HasKey(s, key, id) && key(x) == id
    ensures Find(Replace(s, key, id, x), key, id) == Some(x)
    ensures forall other :: other != id ==> Find(Replace(s, key, id, x), key, other) == Find(s, key, other)
  {
    var r := Replace(s, key, id, x);
    ReplaceSameKeys(s, key, id, x);
    FindIndexSameKeys(s, r, key, id);
    FindIsFirst(s, key, id);
    FindIsFirst(r, key, id);
    forall other | other != id
      ensures Find(r, key, other) == Find(s, key, other)
    {
      FindIndexSameKeys(s, r, key, other);
      FindIsFirst(s, key, other);
      FindIsFirst(r, key, other);
    }
  }

  lemma {:induction false} FindIndexAppend<T>(s: seq<T>, x: T, p: T -> bool)
    ensures Seqs.FindIndex(s + [x], p) ==
      if Seqs.FindIndex(s, p) >= 0 then Seqs.FindIndex(s, p) else if p(x) then |s| else -1
  {
    if s == [] {
      assert [] + [x] == [x] && [x][1..] == [];
    } else {
      assert (s + [x])[0] == s[0];
      assert (s + [x])[1..] == s[1..] + [x];
      FindIndexAppend(s[1..], x, p);
    }
  }

  /** After appending a row whose key is the next identity value, Find returns it
      for its key and what it returned before for every other key. */
  lemma AppendFound<T>(s: seq<T>, key: T -> int, x: T, next: int)
    requires KeysBelow(s, key, next) && key(x) == next
    ensures |s + [x]| == |s| + 1
    ensures Find(s + [x], key, next) == Some(x)
    ensures forall other :: other != next ==> Find(s + [x], key, other) == Find(s, key, other)
  {
    FindIndexAppend(s, x, Seqs.KeyIs(key, next));
    FindIsFirst(s + [x], key, next);
    forall other | other != next
      ensures Find(s + [x], key, other) == Find(s, key, other)
    {
      FindIndexAppend(s, x, Seqs.KeyIs(key, other));
      FindIsFirst(s + [x], key, other);
      FindIsFirst(s, key, other);
    }
  }
}
