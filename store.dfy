/**
 * The message store as a value: a PHP array whose keys (`type` or
 * `type.namespace`) keep their insertion order and map to the list of
 * messages appended under them.
 */
module Store {
  import opened Text

  /** One key of the store with its messages, oldest first. */
  datatype Entry = Entry(key: string, msgs: seq<string>)

  /** The store, entries in key-insertion order. */
  type Messages = seq<Entry>

  /** A PHP array never holds the same key twice. */
  predicate DistinctKeys(m: Messages) {
    forall i, j :: 0 <= i < j < |m| ==> m[i].key != m[j].key
  }

  /** The source only creates a key when it appends a message to it. */
  predicate NoEmptyLists(m: Messages) {
    forall i :: 0 <= i < |m| ==> m[i].msgs != []
  }

  /** `setMessage` lower-cases every key it creates. */
  predicate LowerCaseKeys(m: Messages) {
    forall i :: 0 <= i < |m| ==> IsLowerCase(m[i].key)
  }

  /** The shape every store built by `setMessage` has. */
  predicate WellFormed(m: Messages) {
    DistinctKeys(m) && NoEmptyLists(m) && LowerCaseKeys(m)
  }

  function Keys(m: Messages): (ks: seq<string>)
    ensures |ks| == |m|
    ensures forall i :: 0 <= i < |m| ==> ks[i] == m[i].key
  {
    seq(|m|, i requires 0 <= i < |m| => m[i].key)
  }

  /** The position of `key` in the store, or `|m|` when `isset` would fail. */
  function Find(m: Messages, key: string): (i: nat)
    ensures i <= |m|
    ensures i < |m| ==> m[i].key == key
    ensures forall j :: 0 <= j < i ==> m[j].key != key
    ensures i == |m| <==> key !in Keys(m)
  {
    if m == [] then 0
    else if m[0].key == key then 0
    else
      assert Keys(m) == [m[0].key] + Keys(m[1..]);
      1 + Find(m[1..], key)
  }

  /** The messages stored under `key`; none when the key is absent. */
  function Lookup(m: Messages, key: string): seq<string> {
    var i := Find(m, key);
    if i < |m| then m[i].msgs else []
  }

  /**
   * `setMessage` on an already lower-cased key: create the key as the last one
   * when it is absent, then append the message to its list.
   */
  function Append(m: Messages, key: string, msg: string): Messages {
    var i := Find(m, key);
    if i == |m| then m + [Entry(key, [msg])]
    else m[i := Entry(key, m[i].msgs + [msg])]
  }

  /** Appending keeps the existing keys in place and adds an absent key last. */
  lemma AppendKeys(m: Messages, key: string, msg: string)
    ensures Keys(Append(m, key, msg)) == if key in Keys(m) then Keys(m) else Keys(m) + [key]
  {
  }

  /** The appended message ends the key's list; every other list is unchanged. */
  lemma AppendLookup(m: Messages, key: string, msg: string, other: string)
    ensures Lookup(Append(m, key, msg), key) == Lookup(m, key) + [msg]
    ensures other != key ==> Lookup(Append(m, key, msg), other) == Lookup(m, other)
  {
    var r := Append(m, key, msg);
    var i := Find(m, key);
    assert r[i].key == key;
    FindUnique(r, key, i);
    if other != key {
      var f := Find(m, other);
      if f < |m| {
        assert r[f] == m[f];
        FindUnique(r, other, f);
      } else {
        assert forall j :: 0 <= j < |r| ==> r[j].key != other;
        assert other !in Keys(r);
      }
    }
  }

  /** `Find` returns the first index holding the key. */
  lemma FindUnique(m: Messages, key: string, i: nat)
    requires i < |m| && m[i].key == key
    requires forall j :: 0 <= j < i ==> m[j].key != key
    ensures Find(m, key) == i
  {
    assert Keys(m)[i] == key;
  }

  /** Appending preserves the shape of a store built by appending. */
  lemma AppendInvariants(m: Messages, key: string, msg: string)
    ensures DistinctKeys(m) ==> DistinctKeys(Append(m, key, msg))
    ensures NoEmptyLists(m) ==> NoEmptyLists(Append(m, key, msg))
    ensures LowerCaseKeys(m) && IsLowerCase(key) ==> LowerCaseKeys(Append(m, key, msg))
    ensures forall i :: 0 <= i < |m| && m[i].key != key ==> Append(m, key, msg)[i] == m[i]
  {
    var r := Append(m, key, msg);
    var f := Find(m, key);
    if f == |m| {
      assert r == m + [Entry(key, [msg])];
    } else {
      assert r == m[f := Entry(key, m[f].msgs + [msg])];
      assert Keys(r) == Keys(m);
    }
  }

  /** `importMessages`: the messages appended under one key, in order. */
  function ImportAll(m: Messages, key: string, msgs: seq<string>): Messages
    decreases |msgs|
  {
    if msgs == [] then m
    else Append(ImportAll(m, key, msgs[..|msgs| - 1]), key, msgs[|msgs| - 1])
  }

  /** A non-empty list is its front followed by its last element. */
  lemma DropLast<T>(s: seq<T>)
    requires s != []
    ensures s[..|s| - 1] + [s[|s| - 1]] == s
  {
  }

  /** Importing extends the key's list by the imported messages, in order. */
  lemma {:induction false} ImportAllOwnList(m: Messages, key: string, msgs: seq<string>)
    ensures Lookup(ImportAll(m, key, msgs), key) == Lookup(m, key) + msgs
    decreases |msgs|
  {
    if msgs == [] {
      assert Lookup(m, key) + msgs == Lookup(m, key);
    } else {
      var init, last := msgs[..|msgs| - 1], msgs[|msgs| - 1];
      var prev := ImportAll(m, key, init);
      var before := Lookup(m, key);
      ImportAllOwnList(m, key, init);
      AppendLookup(prev, key, last, key);
      assert Lookup(ImportAll(m, key, msgs), key) == before + init + [last];
      DropLast(msgs);
    }
  }

  /** Importing under one key leaves every other key's list as it was. */
  lemma {:induction false} ImportAllOtherList(m: Messages, key: string, msgs: seq<string>, other: string)
    requires other != key
    ensures Lookup(ImportAll(m, key, msgs), other) == Lookup(m, other)
    decreases |msgs|
  {
    if msgs != [] {
      var init, last := msgs[..|msgs| - 1], msgs[|msgs| - 1];
      ImportAllOtherList(m, key, init, other);
      AppendLookup(ImportAll(m, key, init), key, last, other);
    }
  }

  /** Importing extends the key's list by the imported messages and touches no other list. */
  lemma ImportAllLookup(m: Messages, key: string, msgs: seq<string>, other: string)
    ensures Lookup(ImportAll(m, key, msgs), key) == Lookup(m, key) + msgs
    ensures other != key ==> Lookup(ImportAll(m, key, msgs), other) == Lookup(m, other)
  {
    ImportAllOwnList(m, key, msgs);
    if other != key {
      ImportAllOtherList(m, key, msgs, other);
    }
  }

  /** Importing keeps the store's shape: distinct keys, non-empty lists, lower-case keys. */
  lemma {:induction false} ImportAllInvariants(m: Messages, key: string, msgs: seq<string>)
    ensures DistinctKeys(m) ==> DistinctKeys(ImportAll(m, key, msgs))
    ensures NoEmptyLists(m) ==> NoEmptyLists(ImportAll(m, key, msgs))
    ensures LowerCaseKeys(m) && IsLowerCase(key) ==> LowerCaseKeys(ImportAll(m, key, msgs))
    decreases |msgs|
  {
    if msgs != [] {
      ImportAllInvariants(m, key, msgs[..|msgs| - 1]);
      AppendInvariants(ImportAll(m, key, msgs[..|msgs| - 1]), key, msgs[|msgs| - 1]);
    }
  }

  /** `combine`: every list of the store, concatenated in key order. */
  function Flatten(m: Messages): seq<string> {
    if m == [] then [] else m[0].msgs + Flatten(m[1..])
  }

  lemma {:induction false} FlattenConcat(a: Messages, b: Messages)
    ensures Flatten(a + b) == Flatten(a) + Flatten(b)
  {
    if a == [] {
      assert a + b == b;
    } else {
      assert (a + b)[0] == a[0];
      assert (a + b)[1..] == a[1..] + b;
      FlattenConcat(a[1..], b);
    }
  }

  /** Flattening loses and invents nothing: a message is in the result exactly when some list holds it. */
  lemma {:induction false} FlattenMembers(m: Messages, x: string)
    ensures x in Flatten(m) <==> exists i :: 0 <= i < |m| && x in m[i].msgs
  {
    if m != [] {
      FlattenMembers(m[1..], x);
      assert forall i :: 0 < i < |m| ==> m[1..][i - 1] == m[i];
    }
  }

  /** `array_filter` with `ARRAY_FILTER_USE_KEY`: the entries whose key passes, in order. */
  function Filter(m: Messages, p: string -> bool): (r: Messages)
    ensures |r| <= |m|
    ensures forall e :: e in r <==> e in m && p(e.key)
  {
    if m == [] then []
    else (if p(m[0].key) then [m[0]] else []) + Filter(m[1..], p)
  }

  /** Two filters that agree on the store's keys select the same entries. */
  lemma {:induction false} FilterAgree(m: Messages, p: string -> bool, q: string -> bool)
    requires forall i :: 0 <= i < |m| ==> p(m[i].key) == q(m[i].key)
    ensures Filter(m, p) == Filter(m, q)
  {
    if m != [] {
      assert forall i :: 0 <= i < |m[1..]| ==> m[1..][i] == m[i + 1];
      FilterAgree(m[1..], p, q);
    }
  }

  /** Filtering twice is filtering once by the conjunction. */
  lemma {:induction false} FilterTwice(m: Messages, p: string -> bool, q: string -> bool, both: string -> bool)
    requires forall k :: both(k) == (p(k) && q(k))
    ensures Filter(Filter(m, p), q) == Filter(m, both)
  {
    if m != [] {
      FilterTwice(m[1..], p, q, both);
      var rest := Filter(m[1..], p);
      if p(m[0].key) {
        assert Filter(m, p) == [m[0]] + rest;
        assert ([m[0]] + rest)[0] == m[0];
        assert ([m[0]] + rest)[1..] == rest;
      } else {
        assert Filter(m, p) == rest;
      }
    }
  }

  /** Every entry passes the filter that accepts all keys. */
  lemma {:induction false} FilterAll(m: Messages, p: string -> bool)
    requires forall i :: 0 <= i < |m| ==> p(m[i].key)
    ensures Filter(m, p) == m
  {
    if m != [] {
      assert forall i :: 0 <= i < |m[1..]| ==> m[1..][i] == m[i + 1];
      FilterAll(m[1..], p);
    }
  }

  /** `array_diff_key($a, $b)`: the entries of `a` whose key `b` does not hold. */
  function DiffKeys(a: Messages, b: Messages): (r: Messages)
    ensures forall e :: e in r <==> e in a && e.key !in Keys(b)
  {
    Filter(a, k => k !in Keys(b))
  }

  /** Removing a filter's own selection leaves exactly what the negated filter keeps. */
  lemma DiffOfFilter(a: Messages, p: string -> bool, notP: string -> bool)
    requires forall k :: notP(k) == !p(k)
    ensures DiffKeys(a, Filter(a, p)) == Filter(a, notP)
  {
    var sel := Filter(a, p);
    forall i | 0 <= i < |a|
      ensures (a[i].key !in Keys(sel)) == notP(a[i].key)
    {
      if p(a[i].key) {
        assert a[i] in sel;
        var j :| 0 <= j < |sel| && sel[j] == a[i];
        assert Keys(sel)[j] == a[i].key;
      } else {
        assert forall j :: 0 <= j < |sel| ==> sel[j] in sel;
      }
    }
    FilterAgree(a, k => k !in Keys(sel), notP);
  }

  /** `sub` is `full` with some elements removed, order kept. */
  predicate Sublist<T(==)>(sub: seq<T>, full: seq<T>)
    decreases |full|
  {
    sub == [] || (full != [] && ((sub[0] == full[0] && Sublist(sub[1..], full[1..])) || Sublist(sub, full[1..])))
  }

  lemma {:induction false} SublistPrepend<T>(x: seq<T>, sub: seq<T>, full: seq<T>)
    requires Sublist(sub, full)
    ensures Sublist(sub, x + full)
    ensures Sublist(x + sub, x + full)
    decreases |x|
  {
    if x == [] {
      assert x + sub == sub && x + full == full;
    } else {
      SublistPrepend(x[1..], sub, full);
      assert (x + full)[0] == x[0] == (x + sub)[0];
      assert (x + full)[1..] == x[1..] + full;
      assert (x + sub)[1..] == x[1..] + sub;
      assert Sublist(sub, (x + full)[1..]);
      assert Sublist((x + sub)[1..], (x + full)[1..]);
    }
  }

  /** A filtered store's messages are the whole store's messages with some key lists left out. */
  lemma {:induction false} FlattenFilterSublist(m: Messages, p: string -> bool)
    ensures Sublist(Flatten(Filter(m, p)), Flatten(m))
  {
    if m == [] {
    } else {
      FlattenFilterSublist(m[1..], p);
      var rest := Flatten(Filter(m[1..], p));
      SublistPrepend(m[0].msgs, rest, Flatten(m[1..]));
      if p(m[0].key) {
        assert Filter(m, p) == [m[0]] + Filter(m[1..], p);
        FlattenConcat([m[0]], Filter(m[1..], p));
        assert Flatten([m[0]]) == m[0].msgs;
      } else {
        assert Filter(m, p) == Filter(m[1..], p);
      }
    }
  }

  /** Filtering distributes over concatenation. */
  lemma {:induction false} FilterConcat(a: Messages, b: Messages, p: string -> bool)
    ensures Filter(a + b, p) == Filter(a, p) + Filter(b, p)
  {
    if a == [] {
      assert a + b == b;
    } else {
      assert (a + b)[0] == a[0];
      assert (a + b)[1..] == a[1..] + b;
      FilterConcat(a[1..], b, p);
    }
  }

  /** Replacing an entry the filter rejects by another with the same key changes nothing. */
  lemma {:induction false} FilterUpdateRejected(m: Messages, i: nat, e: Entry, p: string -> bool)
    requires i < |m| && e.key == m[i].key && !p(e.key)
    ensures Filter(m[i := e], p) == Filter(m, p)
    decreases i
  {
    if i == 0 {
      assert m[i := e][1..] == m[1..];
    } else {
      FilterUpdateRejected(m[1..], i - 1, e, p);
      assert m[i := e][1..] == m[1..][i - 1 := e];
      assert m[i := e][0] == m[0];
    }
  }

  /** The flattened store is empty exactly when every list is. */
  lemma {:induction false} FlattenEmpty(m: Messages)
    ensures Flatten(m) == [] <==> forall i :: 0 <= i < |m| ==> m[i].msgs == []
  {
    if m != [] {
      FlattenEmpty(m[1..]);
      assert forall i :: 0 < i < |m| ==> m[1..][i - 1] == m[i];
    }
  }

  /** Over non-empty lists, a filter flattens to something exactly when it keeps some entry. */
  lemma FlattenFilterNonEmpty(m: Messages, p: string -> bool)
    requires NoEmptyLists(m)
    ensures Flatten(Filter(m, p)) != [] <==> exists i :: 0 <= i < |m| && p(m[i].key)
  {
    var f := Filter(m, p);
    FlattenEmpty(f);
    if exists i :: 0 <= i < |m| && p(m[i].key) {
      var i :| 0 <= i < |m| && p(m[i].key);
      assert m[i] in f;
      var j :| 0 <= j < |f| && f[j] == m[i];
      assert f[j].msgs != [];
    }
    if Flatten(f) != [] {
      var j :| 0 <= j < |f| && f[j].msgs != [];
      assert f[j] in f;
      var i :| 0 <= i < |m| && m[i] == f[j];
      assert p(m[i].key);
    }
  }
}
