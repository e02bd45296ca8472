/**
 * The `Feedback` component: the process-wide message store as one object,
 * with the operations that append to it, read it through selectors, and hand
 * it to and from the session.
 */
module FeedbackComponent {
  import opened Wrappers
  import opened Text
  import opened Store
  import opened Selectors

  /** The session key under which the store is flashed. */
  const SessionKey: string := "feedback"

  /** The message of the exception `flash` throws without an active session. */
  const NoSessionError: string := "Feedback cannot be flashed because session has not been started"

  /**
   * The session service as a value: whether `session_status()` reports an
   * active session, and what is stored under each session key (a flashed store
   * stands for its serialized form).
   */
  datatype Session = Session(active: bool, data: map<string, Messages>)

  /** `combine`: walk the entries in order, appending each list to the result. */
  method Combine(entries: Messages) returns (combined: seq<string>)
    ensures combined == Flatten(entries)
  {
    combined := [];
    for i := 0 to |entries|
      invariant combined == Flatten(entries[..i])
    {
      assert entries[..i + 1] == entries[..i] + [entries[i]];
      FlattenConcat(entries[..i], [entries[i]]);
      assert Flatten([entries[i]]) == entries[i].msgs;
      combined := combined + entries[i].msgs;
    }
    assert entries[..|entries|] == entries;
  }

  class Feedback {
    /** `self::$messages`: the stored messages, keys in insertion order. */
    var messages: Messages

    /**
     * The store is a PHP array (no key occurs twice) built only by
     * `setMessage`: every key is lower-case and holds at least one message.
     */
    ghost predicate Valid()
      reads this
    {
      WellFormed(messages)
    }

    constructor ()
      ensures Valid() && messages == []
    {
      messages := [];
    }

    /**
     * `setMessage`: lower-case the key, create it last when absent, and append
     * the message to its list; no other key or list changes.
     */
    method SetMessage(kind: string, message: string)
      requires Valid()
      modifies this
      ensures Valid()
      ensures messages == Append(old(messages), Lower(kind), message)
      ensures Keys(messages) == if Lower(kind) in Keys(old(messages)) then Keys(old(messages))
                                else Keys(old(messages)) + [Lower(kind)]
      ensures Lookup(messages, Lower(kind)) == Lookup(old(messages), Lower(kind)) + [message]
      ensures forall k :: k != Lower(kind) ==> Lookup(messages, k) == Lookup(old(messages), k)
    {
      var key := Lower(kind);
      ghost var before := messages;
      var i := Find(messages, key);
      if i == |messages| {
        messages := messages + [Entry(key, [])];
      }
      messages := messages[i := Entry(key, messages[i].msgs + [message])];
      if i == |before| {
        assert [] + [message] == [message];
        assert messages == before + [Entry(key, [message])];
      }
      assert messages == Append(before, key, message);
      AppendKeys(before, key, message);
      AppendInvariants(before, key, message);
      LowerIsLowerCase(kind);
      forall k {
        AppendLookup(before, key, message, k);
      }
    }

    /**
     * `importMessages`: set each of the model's messages under one key, in
     * order; the key's list grows by exactly those messages.
     */
    method ImportMessages(model: seq<string>, kind: string := "error")
      requires Valid()
      modifies this
      ensures Valid()
      ensures messages == ImportAll(old(messages), Lower(kind), model)
      ensures Lookup(messages, Lower(kind)) == Lookup(old(messages), Lower(kind)) + model
      ensures forall k :: k != Lower(kind) ==> Lookup(messages, k) == Lookup(old(messages), k)
    {
      for i := 0 to |model|
        invariant Valid()
        invariant messages == ImportAll(old(messages), Lower(kind), model[..i])
      {
        assert model[..i + 1][..i] == model[..i];
        SetMessage(kind, model[i]);
      }
      assert model[..|model|] == model;
      forall k {
        ImportAllLookup(old(messages), Lower(kind), model, k);
      }
    }

    /**
     * `getMessage`: the messages of the keys the selector keeps, in key order
     * and append order; a `null` or empty selector keeps every key.
     */
    method GetMessage(selector: Option<string>) returns (result: seq<string>)
      ensures result == Get(messages, selector)
      ensures result == Flatten(Filter(messages, k => SelectedBy(selector, k)))
      ensures Sublist(result, Flatten(messages))
    {
      var matched := Matched(messages, selector);
      result := Combine(matched);
      GetIsSublist(messages, selector);
    }

    /** `has`: whether the selector returns any message. */
    method Has(selector: Option<string>) returns (found: bool)
      ensures found <==> Get(messages, selector) != []
      ensures NoEmptyLists(messages) ==>
                (found <==> exists i :: 0 <= i < |messages| && SelectedBy(selector, messages[i].key))
    {
      var result := GetMessage(selector);
      found := |result| > 0;
      if NoEmptyLists(messages) {
        GetNonEmptyIff(messages, selector);
      }
    }

    /**
     * `flash`: without an active session it fails and stores nothing;
     * otherwise the whole store is written under the session key.
     */
    method Flash(session: Session) returns (result: Result<Session>)
      ensures !session.active ==> result == Failure(NoSessionError)
      ensures session.active ==> result.Success? && result.value.active
      ensures session.active ==> result.value.data == session.data[SessionKey := messages]
    {
      if !session.active {
        result := Failure(NoSessionError);
      } else {
        result := Success(session.(data := session.data[SessionKey := messages]));
      }
    }

    /**
     * `setToFlashed`: replace the whole store by the flashed one when the
     * session holds it, leave it alone otherwise, and remove the session key
     * when `flush` is set.
     */
    method SetToFlashed(session: Session, flush: bool := true) returns (after: Session)
      requires Valid()
      requires SessionKey in session.data ==> WellFormed(session.data[SessionKey])
      modifies this
      ensures Valid()
      ensures messages == if SessionKey in session.data then session.data[SessionKey] else old(messages)
      ensures after.active == session.active
      ensures after.data == if flush then session.data - {SessionKey} else session.data
    {
      if SessionKey in session.data {
        messages := session.data[SessionKey];
      }
      after := session;
      if flush {
        after := after.(data := after.data - {SessionKey});
      }
    }
  }

  /**
   * A flash into an active session followed by `setToFlashed` on a fresh
   * store reproduces the flashed store; with `flush` the session key is gone
   * afterwards, without it the store can be restored again.
   */
  method FlashRoundTrip(source: Feedback, session: Session, flush: bool) returns (restored: Feedback, after: Session)
    requires source.Valid() && session.active
    ensures fresh(restored) && restored.Valid()
    ensures restored.messages == source.messages
    ensures flush ==> SessionKey !in after.data
    ensures !flush ==> SessionKey in after.data && after.data[SessionKey] == source.messages
  {
    var flashed := source.Flash(session);
    restored := new Feedback();
    after := restored.SetToFlashed(flashed.value, flush);
  }
}
