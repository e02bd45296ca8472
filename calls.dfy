/**
 * `callBody`: how a magic method name and its arguments turn into a get or a
 * set. Names starting with `get` read with a selector built from the rest of
 * the name and the first argument; every other name sets a message under the
 * whole method name.
 */
module Calls {
  import opened Wrappers
  import opened Text
  import opened Store
  import opened Selectors

  /**
   * What a magic call does. `GetCall` carries the selector (`None` for `null`);
   * `SetCall` carries the key before lower-casing and the message (`None` when
   * no argument supplies one, where PHP passes `null`).
   */
  datatype Call = GetCall(selector: Option<string>) | SetCall(key: string, message: Option<string>)

  /**
   * `callBody`'s decision: a `get` prefix reads, anything else sets. `get`
   * alone passes its argument as the selector; `get<Type>($arg)` appends
   * `$arg` to `Type` as is when it starts with `!` or `.`, and after a `.`
   * otherwise. A set with two arguments stores under `name.$arg0`.
   */
  function DecodeCall(name: string, params: seq<string>): (c: Call)
    ensures c.GetCall? <==> StartsWith(name, "get")
    ensures c.SetCall? ==> StartsWith(c.key, name)
    ensures c.SetCall? ==> (c.message.None? <==> params == [])
    ensures c.GetCall? && name != "get" ==> c.selector.Some? && StartsWith(c.selector.value, name[3..])
  {
    if StartsWith(name, "get") then
      if name == "get" then GetCall(if params == [] then None else Some(params[0]))
      else if params == [] then GetCall(Some(name[3..]))
      else
        var arg := params[0];
        GetCall(Some(name[3..] + if |arg| > 0 && (arg[0] == '!' || arg[0] == '.') then arg else "." + arg))
    else if |params| == 2 then SetCall(name + "." + params[0], Some(params[1]))
    else SetCall(name, if params == [] then None else Some(params[0]))
  }

  /** `get<Type>()` reads type `Type`; `get<Type>($ns)` joins `$ns` with a `.` unless it starts with `!` or `.`. */
  lemma GetterDecode(t: string, ns: string)
    requires t != ""
    ensures DecodeCall("get" + t, []) == GetCall(Some(t))
    ensures ns == [] || !IsSeparator(ns[0]) ==> DecodeCall("get" + t, [ns]) == GetCall(Some(t + "." + ns))
    ensures DecodeCall("get" + t, ["!" + ns]) == GetCall(Some(t + "!" + ns))
    ensures DecodeCall("get" + t, ["." + ns]) == GetCall(Some(t + "." + ns))
  {
    var name := "get" + t;
    assert name[..3] == "get" && name[3..] == t;
    assert ("!" + ns)[0] == '!' && ("." + ns)[0] == '.';
    assert t + "!" + ns == t + ("!" + ns);
    assert t + "." + ns == t + ("." + ns);
  }

  /**
   * The selector `get<Type>($ns)` builds reads as type `Type` and namespace
   * `ns`, not negated; the one `get<Type>('!' + $ns)` builds is negated.
   */
  lemma GetterSelector(t: string, ns: string)
    requires t != "" && !HasSeparator(t) && !HasSeparator(ns)
    ensures DecodeCall("get" + t, [ns]).selector == Some(t + "." + ns)
    ensures Parse(t + "." + ns) == Selector(Lower(t), Some(Lower(ns)), false)
    ensures DecodeCall("get" + t, ["!" + ns]).selector == Some(t + "!" + ns)
    ensures Parse(t + "!" + ns) == Selector(Lower(t), Some(Lower(ns)), true)
  {
    GetterDecode(t, ns);
    assert ns != [] ==> !IsSeparator(ns[0]);
    assert Parse(t + "." + ns) == Selector(Lower(t), Some(Lower(ns)), false) by {
      ParseTwoPieces(t, '.', ns, "");
      assert t + "." + ns + "" == t + "." + ns;
    }
    assert Parse(t + "!" + ns) == Selector(Lower(t), Some(Lower(ns)), true) by {
      ParseTwoPieces(t, '!', ns, "");
      assert t + "!" + ns + "" == t + "!" + ns;
    }
  }

  /**
   * Because type matching is by substring, a message set with `set<Type>`
   * (stored under `set<type>`) is still found by `get<Type>()`.
   */
  lemma SetterVisibleToGetter(t: string, msg: string)
    requires t != "" && !HasSeparator(t)
    ensures DecodeCall("set" + t, [msg]) == SetCall("set" + t, Some(msg))
    ensures DecodeCall("get" + t, []) == GetCall(Some(t))
    ensures SelectedBy(Some(t), Lower("set" + t))
  {
    assert ("set" + t)[..3] == "set";
    var name := "get" + t;
    assert name[..3] == "get" && name[3..] == t;
    SelectByType(t, Lower("set" + t));
    LowerConcat("set", t);
    ContainsParts(Lower("set"), Lower(t), "");
    assert Lower("set") + Lower(t) + "" == Lower("set" + t);
  }

  /**
   * What `get<Type>($ns)` returns: the messages of the keys containing the
   * type that pass the namespace test, in key order.
   */
  lemma GetterReads(m: Messages, t: string, ns: string)
    requires t != "" && !HasSeparator(t) && !HasSeparator(ns)
    ensures Get(m, DecodeCall("get" + t, [ns]).selector) ==
              Flatten(Filter(m, k => Contains(k, Lower(t)) && NamespaceMatches(k, Lower(ns))))
  {
    GetterSelector(t, ns);
    forall key | true
      ensures SelectedBy(Some(t + "." + ns), key) <==> Contains(key, Lower(t)) && NamespaceMatches(key, Lower(ns))
    {
      SelectByNamespace(t, ns, key);
    }
    MatchedIsFilter(m, Some(t + "." + ns));
    FilterAgree(m, k => SelectedBy(Some(t + "." + ns), k),
                k => Contains(k, Lower(t)) && NamespaceMatches(k, Lower(ns)));
  }

  /**
   * What `get<Type>('!' . $ns)` returns: the messages of the keys containing
   * the type that fail the namespace test, in key order.
   */
  lemma GetterReadsNegated(m: Messages, t: string, ns: string)
    requires t != "" && !HasSeparator(t) && !HasSeparator(ns)
    ensures Get(m, DecodeCall("get" + t, ["!" + ns]).selector) ==
              Flatten(Filter(m, k => Contains(k, Lower(t)) && !NamespaceMatches(k, Lower(ns))))
  {
    GetterSelector(t, ns);
    forall key | true
      ensures SelectedBy(Some(t + "!" + ns), key) <==> Contains(key, Lower(t)) && !NamespaceMatches(key, Lower(ns))
    {
      SelectByNamespace(t, ns, key);
    }
    MatchedIsFilter(m, Some(t + "!" + ns));
    FilterAgree(m, k => SelectedBy(Some(t + "!" + ns), k),
                k => Contains(k, Lower(t)) && !NamespaceMatches(k, Lower(ns)));
  }

  /**
   * `set<Type>($ns, $msg)` stores under `set<type>.<ns>`, and `get<Type>($ns)`
   * then returns the message.
   */
  lemma NamespacedSetThenGet(m: Messages, t: string, ns: string, msg: string)
    requires t != "" && !HasSeparator(t) && !HasSeparator(ns)
    ensures DecodeCall("set" + t, [ns, msg]) == SetCall("set" + t + "." + ns, Some(msg))
    ensures msg in Get(Append(m, Lower(DecodeCall("set" + t, [ns, msg]).key), msg),
                       DecodeCall("get" + t, [ns]).selector)
  {
    assert ("set" + t)[..3] == "set";
    var key := "set" + t + "." + ns;
    GetterSelector(t, ns);
    SetKeyHoldsParts(t, ns);
    SelectByNamespace(t, ns, Lower(key));
    AppendThenGet(m, Lower(key), msg, Some(t + "." + ns));
  }

  /** The lower-cased key `set<Type>.<ns>` contains both lower-cased parts. */
  lemma SetKeyHoldsParts(t: string, ns: string)
    ensures Contains(Lower("set" + t + "." + ns), Lower(t))
    ensures Contains(Lower("set" + t + "." + ns), Lower(ns))
  {
    var key := "set" + t + "." + ns;
    assert Lower(key) == Lower("set") + Lower(t) + Lower("." + ns) by {
      LowerConcat("set" + t, "." + ns);
      LowerConcat("set", t);
      assert key == "set" + t + ("." + ns);
    }
    assert Lower(key) == Lower("set" + t + ".") + Lower(ns) + "" by {
      LowerConcat("set" + t + ".", ns);
    }
    ContainsParts(Lower("set"), Lower(t), Lower("." + ns));
    ContainsParts(Lower("set" + t + "."), Lower(ns), "");
  }
}
