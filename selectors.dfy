/**
 * `getMessage`: the selector language over the store. A selector is
 * `TYPE`, `TYPE.NAMESPACE` or `TYPE!NAMESPACE` (either part may be empty);
 * it is lower-cased, split on `.` and `!`, matched against the keys by
 * substring, and the matched keys' lists are combined in key order.
 */
module Selectors {
  import opened Wrappers
  import opened Text
  import opened Store

  /** A parsed selector: the type, the namespace (`None` when absent) and the negation flag. */
  datatype Selector = Selector(kind: string, namespace: Option<string>, negate: bool)

  /**
   * Lower-case the selector; with a separator, the first two split pieces are
   * the type and the namespace, and `!` anywhere in it negates.
   */
  function Parse(sel: string): (s: Selector)
    ensures s.namespace.Some? <==> HasSeparator(sel)
    ensures s.namespace.None? ==> s.kind == Lower(sel) && !s.negate
    ensures !HasSeparator(s.kind)
  {
    LowerKeepsSeparators(sel);
    var l := Lower(sel);
    if HasSeparator(l) then
      var pieces := Split(l);
      Selector(pieces[0], Some(pieces[1]), '!' in l)
    else
      Selector(l, None, false)
  }

  /** The namespace test of a key; `*` also accepts every namespaced key. */
  predicate NamespaceMatches(key: string, ns: string) {
    (ns == "*" && '.' in key) || Contains(key, ns)
  }

  /** Whether the parsed selector keeps a key, stated in one place. */
  predicate Selected(s: Selector, key: string) {
    Contains(key, s.kind) &&
    match s.namespace
    case None => true
    case Some(ns) => NamespaceMatches(key, ns) != s.negate
  }

  /**
   * The key filtering of `getMessage`, step by step: filter by type (unless
   * the type is empty), then by namespace, then, when negated, take the
   * type-matched keys that the namespace filter did not keep.
   */
  function MatchKeys(m: Messages, s: Selector): (r: Messages)
    ensures |r| <= |m|
    ensures forall e :: e in r ==> e in m
  {
    var filtered := if |s.kind| > 0 then Filter(m, k => Contains(k, s.kind)) else m;
    match s.namespace
    case None => filtered
    case Some(ns) =>
      var ofNamespace := Filter(filtered, k => NamespaceMatches(k, ns));
      if s.negate then DiffKeys(filtered, ofNamespace) else ofNamespace
  }

  /** A `null` or empty selector keeps the whole store. */
  function Matched(m: Messages, sel: Option<string>): Messages {
    if sel.None? || sel.value == "" then m else MatchKeys(m, Parse(sel.value))
  }

  /** Whether selector `sel` (possibly `null`) keeps `key`. */
  predicate SelectedBy(sel: Option<string>, key: string) {
    sel.None? || sel.value == "" || Selected(Parse(sel.value), key)
  }

  /** `getMessage($selector)`: the lists of the matched keys, combined in key order. */
  function Get(m: Messages, sel: Option<string>): seq<string> {
    Flatten(Matched(m, sel))
  }

  /** Every string contains the empty type. */
  lemma ContainsEmpty(key: string)
    ensures Contains(key, "")
  {
    ContainsParts("", "", key);
    assert "" + "" + key == key;
  }

  /** The step-by-step filtering keeps exactly the keys `Selected` accepts, in store order. */
  lemma MatchKeysIsFilter(m: Messages, s: Selector)
    ensures MatchKeys(m, s) == Filter(m, k => Selected(s, k))
  {
    var typeTest := k => Contains(k, s.kind);
    var filtered := if |s.kind| > 0 then Filter(m, typeTest) else m;
    if |s.kind| == 0 {
      forall i | 0 <= i < |m| ensures typeTest(m[i].key) {
        ContainsEmpty(m[i].key);
      }
      FilterAll(m, typeTest);
    }
    assert filtered == Filter(m, typeTest);
    match s.namespace
    case None =>
      FilterAgree(m, typeTest, k => Selected(s, k));
    case Some(ns) =>
      var nsTest := k => NamespaceMatches(k, ns);
      if s.negate {
        var notNs := k => !NamespaceMatches(k, ns);
        DiffOfFilter(filtered, nsTest, notNs);
        FilterTwice(m, typeTest, notNs, k => Selected(s, k));
      } else {
        FilterTwice(m, typeTest, nsTest, k => Selected(s, k));
      }
  }

  /** What any selector returns is the store filtered by `SelectedBy`. */
  lemma MatchedIsFilter(m: Messages, sel: Option<string>)
    ensures Matched(m, sel) == Filter(m, k => SelectedBy(sel, k))
  {
    if sel.None? || sel.value == "" {
      FilterAll(m, k => SelectedBy(sel, k));
    } else {
      MatchKeysIsFilter(m, Parse(sel.value));
      FilterAgree(m, k => Selected(Parse(sel.value), k), k => SelectedBy(sel, k));
    }
  }

  /** Without `.` or `!` the whole lower-cased selector is the type and there is no namespace. */
  lemma ParseNoSeparator(sel: string)
    requires !HasSeparator(sel)
    ensures Parse(sel) == Selector(Lower(sel), None, false)
  {
    LowerKeepsSeparators(sel);
  }

  /**
   * With its first separator at `i` and the next one (or the end) at `j`, the
   * type is the text before `i` and the namespace the text between `i` and
   * `j`; anything after `j` is ignored. Negation is a `!` anywhere.
   */
  lemma ParseSeparated(sel: string, i: nat, j: nat)
    requires FirstSeparatorAt(sel, i)
    requires i < j <= |sel| && !HasSeparator(sel[i + 1..j])
    requires j < |sel| ==> IsSeparator(sel[j])
    ensures Parse(sel).kind == Lower(sel[..i])
    ensures Parse(sel).namespace == Some(Lower(sel[i + 1..j]))
    ensures Parse(sel).negate <==> '!' in sel
  {
    var l := Lower(sel);
    assert IsSeparator(l[i]) && HasSeparator(l);
    assert FirstSeparatorAt(l, i) by {
      LowerSlice(sel, 0, i);
      LowerKeepsSeparators(sel[..i]);
      assert l[..i] == l[0..i] && sel[..i] == sel[0..i];
    }
    assert !HasSeparator(l[i + 1..j]) by {
      LowerSlice(sel, i + 1, j);
      LowerKeepsSeparators(sel[i + 1..j]);
    }
    assert j < |l| ==> IsSeparator(l[j]);
    SplitFirstTwo(l, i, j);
    LowerSlice(sel, 0, i);
    LowerSlice(sel, i + 1, j);
    assert l[..i] == l[0..i] && sel[..i] == sel[0..i];
    assert ('!' in l) <==> ('!' in sel) by {
      LowerKeepsSeparators(sel);
    }
  }

  /** A `null` or empty selector returns every message, key by key, in append order. */
  lemma GetAll(m: Messages)
    ensures Get(m, None) == Flatten(m)
    ensures Get(m, Some("")) == Flatten(m)
    ensures forall x :: x in Get(m, None) <==> exists i :: 0 <= i < |m| && x in m[i].msgs
  {
    forall x ensures x in Flatten(m) <==> exists i :: 0 <= i < |m| && x in m[i].msgs {
      FlattenMembers(m, x);
    }
  }

  /** A type-only selector keeps exactly the keys containing the lower-cased type anywhere. */
  lemma GetByType(m: Messages, t: string)
    requires !HasSeparator(t)
    ensures Get(m, Some(t)) == Flatten(Filter(m, k => Contains(k, Lower(t))))
  {
    MatchedIsFilter(m, Some(t));
    if t != "" {
      ParseNoSeparator(t);
    } else {
      forall i | 0 <= i < |m| ensures Contains(m[i].key, Lower(t)) {
        ContainsEmpty(m[i].key);
      }
    }
    FilterAgree(m, k => SelectedBy(Some(t), k), k => Contains(k, Lower(t)));
  }

  /** A type-only selector keeps a key exactly when the key contains the lower-cased type. */
  lemma SelectByType(t: string, key: string)
    requires !HasSeparator(t)
    ensures SelectedBy(Some(t), key) <==> Contains(key, Lower(t))
  {
    if t != "" {
      ParseNoSeparator(t);
    } else {
      ContainsEmpty(key);
    }
  }

  /**
   * Any result is an order-preserving sublist of all messages, made of whole
   * key lists.
   */
  lemma GetIsSublist(m: Messages, sel: Option<string>)
    ensures Get(m, sel) == Flatten(Filter(m, k => SelectedBy(sel, k)))
    ensures Sublist(Get(m, sel), Get(m, None))
  {
    MatchedIsFilter(m, sel);
    FlattenFilterSublist(m, k => SelectedBy(sel, k));
  }

  /**
   * `has`: in a store that never holds an empty list, a selector returns
   * something exactly when it keeps some key.
   */
  lemma GetNonEmptyIff(m: Messages, sel: Option<string>)
    requires NoEmptyLists(m)
    ensures Get(m, sel) != [] <==> exists i :: 0 <= i < |m| && SelectedBy(sel, m[i].key)
  {
    MatchedIsFilter(m, sel);
    FlattenFilterNonEmpty(m, k => SelectedBy(sel, k));
  }

  /** The messages a selector returns from two stores in sequence are those of each, in sequence. */
  lemma GetConcat(a: Messages, b: Messages, sel: Option<string>)
    ensures Get(a + b, sel) == Get(a, sel) + Get(b, sel)
  {
    var test := k => SelectedBy(sel, k);
    MatchedIsFilter(a + b, sel);
    MatchedIsFilter(a, sel);
    MatchedIsFilter(b, sel);
    FilterConcat(a, b, test);
    FlattenConcat(Filter(a, test), Filter(b, test));
  }

  /**
   * After `setMessage` under `key`: a selector that keeps `key` now returns the
   * message right after the key's earlier messages (last, when the key is
   * new); any other selector returns what it returned before.
   */
  lemma AppendThenGet(m: Messages, key: string, msg: string, sel: Option<string>)
    ensures SelectedBy(sel, key) ==> msg in Get(Append(m, key, msg), sel)
    ensures SelectedBy(sel, key) && key !in Keys(m) ==>
              Get(Append(m, key, msg), sel) == Get(m, sel) + [msg]
    ensures key in Keys(m) ==>
              Get(m, sel) == Get(m[..Find(m, key) + 1], sel) + Get(m[Find(m, key) + 1..], sel)
    ensures SelectedBy(sel, key) && key in Keys(m) ==>
              Get(Append(m, key, msg), sel) ==
              Get(m[..Find(m, key) + 1], sel) + [msg] + Get(m[Find(m, key) + 1..], sel)
    ensures !SelectedBy(sel, key) ==> Get(Append(m, key, msg), sel) == Get(m, sel)
  {
    if key !in Keys(m) {
      AppendNewKeyGet(m, key, msg, sel);
      assert SelectedBy(sel, key) ==> (Get(m, sel) + [msg])[|Get(m, sel)|] == msg;
    } else {
      AppendOldKeyGet(m, key, msg, sel);
      GetSplitAt(m, Find(m, key) + 1, sel);
    }
  }

  /** `AppendThenGet` for a key the store does not hold yet. */
  lemma AppendNewKeyGet(m: Messages, key: string, msg: string, sel: Option<string>)
    requires key !in Keys(m)
    ensures SelectedBy(sel, key) ==> Get(Append(m, key, msg), sel) == Get(m, sel) + [msg]
    ensures !SelectedBy(sel, key) ==> Get(Append(m, key, msg), sel) == Get(m, sel)
  {
    MatchedIsFilter(m, sel);
    MatchedIsFilter(Append(m, key, msg), sel);
    AppendNewKeyFilter(m, key, msg, k => SelectedBy(sel, k));
  }

  /** A selector's result on a store is its result on a prefix followed by its result on the rest. */
  lemma GetSplitAt(m: Messages, i: nat, sel: Option<string>)
    requires i <= |m|
    ensures Get(m, sel) == Get(m[..i], sel) + Get(m[i..], sel)
  {
    assert m == m[..i] + m[i..];
    GetConcat(m[..i], m[i..], sel);
  }

  /** `AppendThenGet` for a key the store already holds. */
  lemma AppendOldKeyGet(m: Messages, key: string, msg: string, sel: Option<string>)
    requires key in Keys(m)
    ensures SelectedBy(sel, key) ==> msg in Get(Append(m, key, msg), sel)
    ensures SelectedBy(sel, key) ==>
              Get(Append(m, key, msg), sel) ==
              Get(m[..Find(m, key) + 1], sel) + [msg] + Get(m[Find(m, key) + 1..], sel)
    ensures !SelectedBy(sel, key) ==> Get(Append(m, key, msg), sel) == Get(m, sel)
  {
    var test := k => SelectedBy(sel, k);
    var i := Find(m, key);
    MatchedIsFilter(m, sel);
    MatchedIsFilter(Append(m, key, msg), sel);
    AppendOldKeyFilter(m, key, msg, test);
    if test(key) {
      AppendOldKeyPosition(m, key, msg, test);
      MatchedIsFilter(m[..i + 1], sel);
      MatchedIsFilter(m[i + 1..], sel);
    }
  }

  /** Filtering and flattening a store split around one entry. */
  lemma FlattenFilterAround(a: Messages, e: Entry, b: Messages, p: string -> bool)
    ensures Flatten(Filter(a + [e] + b, p)) ==
              Flatten(Filter(a, p)) + (if p(e.key) then e.msgs else []) + Flatten(Filter(b, p))
  {
    FilterConcat(a + [e], b, p);
    FilterConcat(a, [e], p);
    FlattenConcat(Filter(a, p) + Filter([e], p), Filter(b, p));
    FlattenConcat(Filter(a, p), Filter([e], p));
    FilterOne(e, p);
  }

  /**
   * Appending under a present key that the filter keeps places the message
   * right after that key's earlier messages.
   */
  lemma AppendOldKeyPosition(m: Messages, key: string, msg: string, p: string -> bool)
    requires key in Keys(m) && p(key)
    ensures Flatten(Filter(Append(m, key, msg), p)) ==
              Flatten(Filter(m[..Find(m, key) + 1], p)) + [msg] + Flatten(Filter(m[Find(m, key) + 1..], p))
  {
    var i := Find(m, key);
    var e := Entry(key, m[i].msgs + [msg]);
    var before, after := m[..i], m[i + 1..];
    UpdateSplit(m, i, e);
    FlattenFilterAround(before, e, after, p);
    var x := Flatten(Filter(before, p));
    var y := Flatten(Filter(after, p));
    assert Flatten(Filter(m[..i + 1], p)) == x + m[i].msgs by {
      PrefixSplit(m, i);
      FilterConcat(before, [m[i]], p);
      FlattenConcat(Filter(before, p), Filter([m[i]], p));
      FilterOne(m[i], p);
    }
    ConcatRegroup(x, m[i].msgs, msg, y);
  }

  /** Replacing one element splits a sequence around it. */
  lemma UpdateSplit<T>(s: seq<T>, i: nat, x: T)
    requires i < |s|
    ensures s[i := x] == s[..i] + [x] + s[i + 1..]
  {
  }

  /** A prefix ending at `i` is the prefix before `i` followed by `s[i]`. */
  lemma PrefixSplit<T>(s: seq<T>, i: nat)
    requires i < |s|
    ensures s[..i + 1] == s[..i] + [s[i]]
  {
  }

  /** Moving one appended element across a concatenation. */
  lemma ConcatRegroup<T>(x: seq<T>, l: seq<T>, v: T, y: seq<T>)
    ensures x + (l + [v]) + y == (x + l) + [v] + y
  {
  }

  /** Appending under a new key adds its entry last, so a filter keeping it gains the message last. */
  lemma AppendNewKeyFilter(m: Messages, key: string, msg: string, test: string -> bool)
    requires key !in Keys(m)
    ensures test(key) ==> Flatten(Filter(Append(m, key, msg), test)) == Flatten(Filter(m, test)) + [msg]
    ensures !test(key) ==> Flatten(Filter(Append(m, key, msg), test)) == Flatten(Filter(m, test))
  {
    FilterConcat(m, [Entry(key, [msg])], test);
    FlattenConcat(Filter(m, test), Filter([Entry(key, [msg])], test));
    FilterOne(Entry(key, [msg]), test);
    if !test(key) {
      ConcatEmpty(Flatten(Filter(m, test)));
    }
  }

  /** Appending nothing leaves a sequence as it is. */
  lemma ConcatEmpty<T>(s: seq<T>)
    ensures s + [] == s
  {
  }

  /** Appending under a present key updates its entry in place. */
  lemma AppendOldKeyFilter(m: Messages, key: string, msg: string, test: string -> bool)
    requires key in Keys(m)
    ensures test(key) ==> msg in Flatten(Filter(Append(m, key, msg), test))
    ensures !test(key) ==> Filter(Append(m, key, msg), test) == Filter(m, test)
  {
    var i := Find(m, key);
    var after := Append(m, key, msg);
    if test(key) {
      assert after[i] in Filter(after, test);
      FlattenMembers(Filter(after, test), msg);
    } else {
      FilterUpdateRejected(m, i, Entry(key, m[i].msgs + [msg]), test);
    }
  }

  /**
   * A key that holds no `!` is kept by itself used as a selector, so a message
   * set under a type is returned by getting that type.
   */
  lemma KeySelectsItself(t: string)
    requires '!' !in t
    ensures SelectedBy(Some(t), Lower(t))
  {
    var l := Lower(t);
    if t != "" {
      if !HasSeparator(t) {
        ParseNoSeparator(t);
        ContainsParts("", l, "");
        assert "" + l + "" == l;
      } else {
        var i := SeparatorIndex(t);
        var rest := t[i + 1..];
        var j := i + 1 + SeparatorIndex(rest);
        assert !HasSeparator(t[i + 1..j]) by {
          assert rest[..j - i - 1] == t[i + 1..j];
        }
        assert j < |t| ==> IsSeparator(t[j]) by {
          assert j < |t| ==> rest[j - i - 1] == t[j];
        }
        ParseSeparated(t, i, j);
        assert Contains(l, Lower(t[..i])) by {
          LowerSlice(t, 0, i);
          assert t[..i] == t[0..i];
          ContainsSlice(l, 0, i);
        }
        assert Contains(l, Lower(t[i + 1..j])) by {
          LowerSlice(t, i + 1, j);
          ContainsSlice(l, i + 1, j);
        }
      }
    }
  }

  /** `set(type, m)` then `get(type)` returns `m`, for every type without a `!`. */
  lemma SetThenGet(m: Messages, t: string, msg: string)
    requires '!' !in t
    ensures msg in Get(Append(m, Lower(t), msg), Some(t))
    ensures Lower(t) !in Keys(m) ==> Get(Append(m, Lower(t), msg), Some(t)) == Get(m, Some(t)) + [msg]
    ensures Lower(t) in Keys(m) ==>
              Get(Append(m, Lower(t), msg), Some(t)) ==
              Get(m[..Find(m, Lower(t)) + 1], Some(t)) + [msg] + Get(m[Find(m, Lower(t)) + 1..], Some(t))
  {
    var key, sel := Lower(t), Some(t);
    assert SelectedBy(sel, key) by { KeySelectsItself(t); }
    if key in Keys(m) {
      AppendOldKeyGet(m, key, msg, sel);
    } else {
      AppendNewKeyGet(m, key, msg, sel);
      assert (Get(m, sel) + [msg])[|Get(m, sel)|] == msg;
    }
  }

  /** A string without separators holds no `!`. */
  lemma NoBang(s: string)
    requires !HasSeparator(s)
    ensures '!' !in s
  {
    assert forall k :: 0 <= k < |s| ==> s[k] != '!';
  }

  /**
   * `TYPE c NAMESPACE rest`, with `c` the first separator and `rest` empty or
   * starting at the second: the first two pieces are the type and the
   * namespace, whatever `rest` holds, and a `!` anywhere negates.
   */
  lemma ParseTwoPieces(t: string, c: char, n: string, rest: string)
    requires !HasSeparator(t) && IsSeparator(c) && !HasSeparator(n)
    requires rest != [] ==> IsSeparator(rest[0])
    ensures Parse(t + [c] + n + rest) == Selector(Lower(t), Some(Lower(n)), c == '!' || '!' in rest)
  {
    var sel := t + [c] + n + rest;
    var i, j := |t|, |t| + 1 + |n|;
    assert sel[..i] == t;
    assert sel[i + 1..j] == n;
    assert sel[i] == c;
    assert j < |sel| ==> sel[j] == rest[0];
    ParseSeparated(sel, i, j);
    NoBang(t);
    NoBang(n);
    assert ('!' in sel) <==> c == '!' || '!' in rest;
  }

  /**
   * `TYPE.NAMESPACE` keeps the keys that contain both parts; `TYPE!NAMESPACE`
   * keeps the keys that contain the type but fail the namespace test.
   */
  lemma SelectByNamespace(t: string, n: string, key: string)
    requires !HasSeparator(t) && !HasSeparator(n)
    ensures SelectedBy(Some(t + "." + n), key) <==>
              Contains(key, Lower(t)) && NamespaceMatches(key, Lower(n))
    ensures SelectedBy(Some(t + "!" + n), key) <==>
              Contains(key, Lower(t)) && !NamespaceMatches(key, Lower(n))
  {
    ParseTwoPieces(t, '.', n, "");
    ParseTwoPieces(t, '!', n, "");
    assert t + "." + n + "" == t + "." + n;
    assert t + "!" + n + "" == t + "!" + n;
  }

  /**
   * Only the first two pieces count: whatever follows a second separator is
   * dropped, except that a `!` there still negates.
   */
  lemma ParseIgnoresRest(t: string, n: string, c: char, rest: string)
    requires !HasSeparator(t) && !HasSeparator(n) && IsSeparator(c)
    ensures Parse(t + "." + n + [c] + rest) == Selector(Lower(t), Some(Lower(n)), c == '!' || '!' in rest)
  {
    ParseTwoPieces(t, '.', n, [c] + rest);
    assert t + "." + n + [c] + rest == t + ['.'] + n + ([c] + rest);
  }

  /** The literal parts of the wildcard selectors. */
  lemma WildcardPartFacts()
    ensures Lower("*") == "*" && Lower("") == "" && !HasSeparator("*")
    ensures "" + "." + "*" == ".*" && "" + "!" + "*" == "!*"
  {
  }

  /** The wildcard namespace test applies before negation, in both directions. */
  lemma SelectByNamespaceWildcard(key: string)
    ensures SelectedBy(Some(".*"), key) <==> '.' in key || '*' in key
    ensures SelectedBy(Some("!*"), key) <==> '.' !in key && '*' !in key
  {
    WildcardPartFacts();
    SelectByNamespace("", "*", key);
    ContainsEmpty(key);
    ContainsChar(key, '*');
  }

  /** `!*` keeps the keys without a namespace (and without a literal `*`). */
  lemma WildcardNegated(m: Messages)
    ensures Get(m, Some("!*")) == Flatten(Filter(m, k => '.' !in k && '*' !in k))
  {
    forall key | true
      ensures SelectedBy(Some("!*"), key) <==> '.' !in key && '*' !in key
    {
      SelectByNamespaceWildcard(key);
    }
    GetIsSublist(m, Some("!*"));
    FilterAgree(m, k => SelectedBy(Some("!*"), k), k => '.' !in k && '*' !in k);
  }

  /** `.*` keeps every key with a namespace (or with a literal `*`). */
  lemma WildcardPositive(m: Messages)
    ensures Get(m, Some(".*")) == Flatten(Filter(m, k => '.' in k || '*' in k))
  {
    forall key | true
      ensures SelectedBy(Some(".*"), key) <==> '.' in key || '*' in key
    {
      SelectByNamespaceWildcard(key);
    }
    GetIsSublist(m, Some(".*"));
    FilterAgree(m, k => SelectedBy(Some(".*"), k), k => '.' in k || '*' in k);
  }

  /**
   * A key holding a `!` is not found by itself: `a!b` reads as type `a`
   * without namespace `b`, and the key contains `b`.
   */
  lemma BangKeyHidesItself()
    ensures !SelectedBy(Some("a!b"), "a!b")
  {
    BangKeyParts();
    SelectByNamespace("a", "b", "a!b");
    ContainsSlice("a!b", 2, 3);
  }

  /** The literal parts of `a!b`. */
  lemma BangKeyParts()
    ensures !HasSeparator("a") && !HasSeparator("b")
    ensures Lower("a") == "a" && Lower("b") == "b"
    ensures "a" + "!" + "b" == "a!b" && "a!b"[2..3] == "b"
  {
  }

  /** A sample store for the selector examples of the doc comment. */
  function ExampleStore(): Messages {
    [Entry("error", ["A"]), Entry("error.email", ["B"]), Entry("warning.email", ["C"])]
  }

  /** Which example key contains which selector part. */
  lemma ExampleKeyFacts()
    ensures Contains("error", "error") && Contains("error.email", "error") && !Contains("warning.email", "error")
    ensures !Contains("error", "email") && Contains("error.email", "email") && Contains("warning.email", "email")
  {
    ExampleErrorFacts();
    ExampleEmailFacts();
  }

  /** Which example key contains `error`. */
  lemma ExampleErrorFacts()
    ensures Contains("error", "error") && Contains("error.email", "error") && !Contains("warning.email", "error")
  {
    ContainsSlice("error", 0, 5);
    assert "error"[0..5] == "error";
    ContainsSlice("error.email", 0, 5);
    assert "error.email"[0..5] == "error";
    assert "error"[3] == 'o' && 'o' !in "warning.email";
    ContainsHasChars("warning.email", "error", 3);
  }

  /** Which example key contains `email`. */
  lemma ExampleEmailFacts()
    ensures !Contains("error", "email") && Contains("error.email", "email") && Contains("warning.email", "email")
  {
    ContainsSlice("error.email", 6, 11);
    assert "error.email"[6..11] == "email";
    ContainsSlice("warning.email", 8, 13);
    assert "warning.email"[8..13] == "email";
    assert "email"[1] == 'm' && 'm' !in "error";
    ContainsHasChars("error", "email", 1);
  }

  /** Filtering one entry keeps it or drops it. */
  lemma FilterOne(e: Entry, p: string -> bool)
    ensures Flatten(Filter([e], p)) == if p(e.key) then e.msgs else []
  {
    assert [e][1..] == [];
  }

  /** Filtering and flattening the three-key sample store, entry by entry. */
  lemma ExampleGet(sel: Option<string>)
    ensures Get(ExampleStore(), sel) ==
      (if SelectedBy(sel, "error") then ["A"] else []) +
      (if SelectedBy(sel, "error.email") then ["B"] else []) +
      (if SelectedBy(sel, "warning.email") then ["C"] else [])
  {
    GetIsSublist(ExampleStore(), sel);
    FilterThree(Entry("error", ["A"]), Entry("error.email", ["B"]), Entry("warning.email", ["C"]),
                k => SelectedBy(sel, k));
  }

  /** Filtering and flattening a three-entry store, entry by entry. */
  lemma FilterThree(e0: Entry, e1: Entry, e2: Entry, p: string -> bool)
    ensures Flatten(Filter([e0, e1, e2], p)) ==
      (if p(e0.key) then e0.msgs else []) + (if p(e1.key) then e1.msgs else []) +
      (if p(e2.key) then e2.msgs else [])
  {
    assert [e0, e1, e2] == [e0] + [e1] + [e2];
    FilterConcat([e0] + [e1], [e2], p);
    FilterConcat([e0], [e1], p);
    FlattenConcat(Filter([e0], p) + Filter([e1], p), Filter([e2], p));
    FlattenConcat(Filter([e0], p), Filter([e1], p));
    FilterOne(e0, p);
    FilterOne(e1, p);
    FilterOne(e2, p);
  }

  /** The selector parts of the examples, lower-case and without separators. */
  lemma ExamplePartFacts()
    ensures Lower("error") == "error" && !HasSeparator("error")
    ensures Lower("email") == "email" && !HasSeparator("email")
    ensures Lower("") == "" && !HasSeparator("")
  {
  }

  /** How `.email` and `!email` decide on a key. */
  lemma ExampleNamespaceSelectors(key: string)
    ensures SelectedBy(Some(".email"), key) <==> Contains(key, "email")
    ensures SelectedBy(Some("!email"), key) <==> !Contains(key, "email")
  {
    ExampleNamespaceParts();
    ContainsEmpty(key);
    SelectByNamespace("", "email", key);
  }

  /** The literal parts of `.email` and `!email`. */
  lemma ExampleNamespaceParts()
    ensures Lower("email") == "email" && !HasSeparator("email")
    ensures Lower("") == "" && !HasSeparator("")
    ensures "" + "." + "email" == ".email" && "" + "!" + "email" == "!email"
  {
    ExamplePartFacts();
  }

  /** How `error.email` and `error!email` decide on a key. */
  lemma ExampleTypedSelectors(key: string)
    ensures SelectedBy(Some("error.email"), key) <==> Contains(key, "error") && Contains(key, "email")
    ensures SelectedBy(Some("error!email"), key) <==> Contains(key, "error") && !Contains(key, "email")
  {
    ExamplePartFacts();
    SelectByNamespace("error", "email", key);
    assert "error" + "." + "email" == "error.email";
    assert "error" + "!" + "email" == "error!email";
  }

  /** `error` keeps `error` and `error.email`. */
  lemma ErrorDecisions()
    ensures SelectedBy(Some("error"), "error") && SelectedBy(Some("error"), "error.email")
    ensures !SelectedBy(Some("error"), "warning.email")
  {
    ExampleKeyFacts();
    ExamplePartFacts();
    SelectByType("error", "error");
    SelectByType("error", "error.email");
    SelectByType("error", "warning.email");
  }

  /** `.email` keeps `error.email` and `warning.email`. */
  lemma DotEmailDecisions()
    ensures !SelectedBy(Some(".email"), "error") && SelectedBy(Some(".email"), "error.email")
    ensures SelectedBy(Some(".email"), "warning.email")
  {
    ExampleKeyFacts();
    ExampleNamespaceSelectors("error");
    ExampleNamespaceSelectors("error.email");
    ExampleNamespaceSelectors("warning.email");
  }

  /** `!email` keeps only `error`. */
  lemma BangEmailDecisions()
    ensures SelectedBy(Some("!email"), "error") && !SelectedBy(Some("!email"), "error.email")
    ensures !SelectedBy(Some("!email"), "warning.email")
  {
    ExampleKeyFacts();
    ExampleNamespaceSelectors("error");
    ExampleNamespaceSelectors("error.email");
    ExampleNamespaceSelectors("warning.email");
  }

  /** `error.email` keeps only `error.email`. */
  lemma ErrorDotEmailDecisions()
    ensures !SelectedBy(Some("error.email"), "error") && SelectedBy(Some("error.email"), "error.email")
    ensures !SelectedBy(Some("error.email"), "warning.email")
  {
    ExampleKeyFacts();
    ExampleTypedSelectors("error");
    ExampleTypedSelectors("error.email");
    ExampleTypedSelectors("warning.email");
  }

  /** `error!email` keeps only `error`. */
  lemma ErrorBangEmailDecisions()
    ensures SelectedBy(Some("error!email"), "error") && !SelectedBy(Some("error!email"), "error.email")
    ensures !SelectedBy(Some("error!email"), "warning.email")
  {
    ExampleKeyFacts();
    ExampleTypedSelectors("error");
    ExampleTypedSelectors("error.email");
    ExampleTypedSelectors("warning.email");
  }

  /** `null` returns every message, in key order. */
  lemma ExampleAll()
    ensures Get(ExampleStore(), None) == ["A", "B", "C"]
  {
    ExampleGet(None);
    assert ["A"] + ["B"] + ["C"] == ["A", "B", "C"];
  }

  /** `error` returns the messages of `error` and of `error.email`. */
  lemma ExampleType()
    ensures Get(ExampleStore(), Some("error")) == ["A", "B"]
  {
    ErrorDecisions();
    ExampleGet(Some("error"));
    assert ["A"] + ["B"] + [] == ["A", "B"];
  }

  /** `.email` returns the messages of both `email` keys. */
  lemma ExampleNamespace()
    ensures Get(ExampleStore(), Some(".email")) == ["B", "C"]
  {
    DotEmailDecisions();
    ExampleGet(Some(".email"));
    assert [] + ["B"] + ["C"] == ["B", "C"];
  }

  /** `!email` returns the messages of the key without `email`. */
  lemma ExampleNegatedNamespace()
    ensures Get(ExampleStore(), Some("!email")) == ["A"]
  {
    BangEmailDecisions();
    ExampleGet(Some("!email"));
    assert ["A"] + [] + [] == ["A"];
  }

  /** `error.email` returns the messages of `error.email` only. */
  lemma ExampleTypedNamespace()
    ensures Get(ExampleStore(), Some("error.email")) == ["B"]
  {
    ErrorDotEmailDecisions();
    ExampleGet(Some("error.email"));
    assert [] + ["B"] + [] == ["B"];
  }

  /** `error!email` returns the `error` messages outside `email`. */
  lemma ExampleTypedNegated()
    ensures Get(ExampleStore(), Some("error!email")) == ["A"]
  {
    ErrorBangEmailDecisions();
    ExampleGet(Some("error!email"));
    assert ["A"] + [] + [] == ["A"];
  }

  /** `has()` is false on an empty store and true after any `setMessage`. */
  lemma HasAfterAnySet(m: Messages, key: string, msg: string)
    ensures Get([], None) == []
    ensures Get(Append(m, key, msg), None) != []
  {
    AppendThenGet(m, key, msg, None);
  }
}
