# Feedback message store — a Dafny model

This project models the `Feedback` component (`Feedback.php`), a request-scoped
store of user-facing messages. Each message is filed under a key `type` or
`type.namespace` (lower-cased on the way in). The messages are read back
through a small selector language: `error`, `error.email`, `.email`,
`error!email`, `!email`. The store can also be flashed into the session and
restored on the next request.

Modules, one per file:

- `Wrappers` (`wrappers.dfy`): `Option` (for PHP `null`) and `Result` (for the exception `flash` throws).
- `Text` (`text.dfy`): the string primitives the source uses. These are ASCII `strtolower`, substring search (`strpos(...) !== false`) and the split on `.` and `!` (`preg_split('/[\!\.]/', ...)`).
- `Store` (`store.dfy`): the store as a value. It is a PHP array, modelled as a sequence of `Entry(key, msgs)` in key-insertion order. The module holds the append, import, filter, key-difference and combine operations and their lemmas.
- `Selectors` (`selectors.dfy`): `getMessage`. Parsing, the step-by-step key filtering as the source writes it, a one-predicate characterisation of it (`Selected`), and the selector examples from the doc comment, run on a sample store.
- `Calls` (`calls.dfy`): `callBody`'s decoding of a magic method name and its arguments into a get or a set.
- `FeedbackComponent` (`feedback.dfy`): the class `Feedback`. Its field `messages` is the static `$messages`. Its methods are `SetMessage`, `ImportMessages`, `GetMessage`, `Has`, `Flash` and `SetToFlashed`. Beside them sit the `Combine` loop and a flash/restore round trip.

Behaviour of the code that its own doc comments (`Feedback.php:36`, `Feedback.php:121-126`) do not spell out, and that the model keeps:

- The selector is split at every `.` and `!`, and only the first two pieces are used. A `!` anywhere in the selector negates it (`Feedback.php:145`, `Feedback.php:179`). So `a.b.c` has namespace `b`, and `a.b!c` is negated, although the doc comment's format `TYPE[(.|!)NAMESPACE]` has a single separator.
- The namespace `*` also keeps every key that holds a `.` (`Feedback.php:168-170`). The test runs before the negation, so `.*` keeps every namespaced key and `!*` keeps every key without one. A key holding a literal `*` passes the substring test too.
- `combine` walks the keys in insertion order (`Feedback.php:194`), so results come out in the order the keys were first set.

## Model

| member | source | states |
|---|---|---|
| `Text.LowerIsLowerCase` | Feedback.php:106 | lower-casing leaves no ASCII upper-case letter and is idempotent |
| `Text.Lower` | Feedback.php:106 | `strtolower` on ASCII: same length, no upper-case letter left, and each character kept or an upper-case letter moved to its lower-case form |
| `Text.LowerKeepsSeparators` | Feedback.php:139-144 | lower-casing the selector neither adds nor removes a `.` or `!`, and keeps each `!` in place |
| `Text.ContainsIff` | Feedback.php:155 | the substring search holds exactly when the needle occurs at some index; the empty needle occurs everywhere |
| `Text.Contains` | Feedback.php:155 | `strpos(...) !== false` as a search over start positions; the empty needle is found, and a found needle is no longer than the haystack |
| `Text.Split` | Feedback.php:145 | the split yields at least one piece, no piece holds a separator, and there are two or more pieces exactly when the text has a separator |
| `Text.SplitAtFirst` | Feedback.php:145 | the first piece is the text before the first separator; the remaining pieces are the split of the text after it |
| `Text.SplitNoSeparator` | Feedback.php:144-148 | text without a separator is one piece, itself |
| `Store.Find` | Feedback.php:108 | the index of the key's entry, with no earlier entry holding that key, or the store's length exactly when the key is absent |
| `Store.Append` | Feedback.php:104-113 | `setMessage` on a lower-cased key, as a value: create the key last when absent, then append the message; its meaning is stated by `Store.AppendKeys`, `Store.AppendLookup` and `Store.AppendInvariants` |
| `Store.AppendKeys` | Feedback.php:108-110 | appending keeps the keys in order and adds an absent key as the last one |
| `Store.AppendLookup` | Feedback.php:112 | the message becomes the last of its key's list; every other key's list is unchanged |
| `Store.AppendInvariants` | Feedback.php:104-113 | appending keeps keys distinct, keeps lists non-empty, keeps keys lower-case, and leaves every other entry in place |
| `Store.ImportAll` | Feedback.php:88-93 | `importMessages` as a value: the messages appended one by one under one key; its meaning is stated by `Store.ImportAllLookup` and `Store.ImportAllInvariants` |
| `Store.ImportAllLookup` | Feedback.php:88-93 | importing extends the key's list by exactly the imported messages, in order, and changes no other list |
| `Store.ImportAllInvariants` | Feedback.php:88-93 | importing keeps the keys distinct, keeps every list non-empty, and keeps the keys lower-case when the import key is |
| `Store.Filter` | Feedback.php:153-158 | the filtered store holds exactly the entries whose key passes, and is no longer than the store |
| `Store.FilterTwice` | Feedback.php:153-176 | filtering by type and then by namespace is filtering once by both tests |
| `Store.DiffKeys` | Feedback.php:180 | the difference keeps exactly the entries whose key the second store lacks |
| `Store.DiffOfFilter` | Feedback.php:165-181 | removing a filter's selection from a store leaves exactly what the negated filter keeps |
| `Store.Flatten` | Feedback.php:191-199 | `combine` as a value: every list concatenated in key order; `FeedbackComponent.Combine` computes it with the loop, and `Store.FlattenMembers` says it loses and invents nothing |
| `Store.FlattenConcat` | Feedback.php:191-199 | combining two stores in sequence is combining each and concatenating |
| `Store.FlattenMembers` | Feedback.php:191-199 | a message is in the combined result exactly when it is in some key's list |
| `Store.FlattenFilterSublist` | Feedback.php:183 | the combined result of a filtered store is an order-preserving sublist of the combined store |
| `Selectors.MatchKeysIsFilter` | Feedback.php:151-182 | the type filter, namespace filter and negation, run in the source's order, keep exactly the keys `Selected` accepts, in store order |
| `Selectors.MatchedIsFilter` | Feedback.php:133-183 | every selector, including `null` and the empty one, keeps exactly the keys `SelectedBy` accepts |
| `Selectors.Parse` | Feedback.php:139-149 | a namespace is present exactly when the selector has a `.` or `!`; without one the type is the whole lower-cased selector and nothing is negated; the type never holds a separator |
| `Selectors.NamespaceMatches` | Feedback.php:166-176 | the namespace test: the key contains the namespace, or the namespace is `*` and the key holds a `.` |
| `Selectors.MatchKeys` | Feedback.php:151-182 | the source's filtering steps in order; the result is drawn from the store and no longer than it |
| `Selectors.Selected` | Feedback.php:151-182 | the reference definition: a key is kept when it contains the type and, with a namespace, passes the namespace test unless negated |
| `Selectors.SelectedBy` | Feedback.php:133-182 | the reference definition for a raw selector: `null` and the empty selector keep every key, any other is parsed and tested with `Selected` |
| `Selectors.Get` | Feedback.php:130-184 | `getMessage` as a value: the matched keys' lists combined; `Selectors.MatchedIsFilter` and `Selectors.GetIsSublist` state what it returns |
| `Selectors.ParseNoSeparator` | Feedback.php:144-149 | without a separator the lower-cased selector is the type and there is no namespace |
| `Selectors.ParseSeparated` | Feedback.php:139-145 | the type is the text before the first separator and the namespace the text up to the next one; negation is a `!` anywhere |
| `Selectors.ParseTwoPieces` | Feedback.php:144-145 | for type, separator, namespace and a rest that starts at a separator, the parse is the type, the namespace and a negation flag set by a `!` anywhere |
| `Selectors.ParseIgnoresRest` | Feedback.php:145 | `a.b` followed by a second separator and more parses as type `a`, namespace `b`; a later `!` still negates |
| `Selectors.GetAll` | Feedback.php:134-136 | a `null` or empty selector returns every key's list, concatenated in key order, and every stored message is in it |
| `Selectors.SelectByType` | Feedback.php:152-159 | a type-only selector keeps exactly the keys containing the lower-cased type anywhere; the empty type keeps all |
| `Selectors.GetByType` | Feedback.php:152-159 | the messages a type-only selector returns are those of the keys containing the type, in order |
| `Selectors.SelectByNamespace` | Feedback.php:164-182 | `t.n` keeps the keys containing `t` that pass the namespace test for `n`; `t!n` keeps those containing `t` that fail it |
| `Selectors.SelectByNamespaceWildcard` | Feedback.php:166-181 | `.*` keeps exactly the keys holding a `.` or `*`; `!*` keeps exactly those holding neither |
| `Selectors.WildcardNegated` | Feedback.php:168-181 | `!*` returns the messages of the keys without a namespace (and without a literal `*`) |
| `Selectors.WildcardPositive` | Feedback.php:168-176 | `.*` returns the messages of the namespaced keys (and of keys with a literal `*`) |
| `Selectors.GetIsSublist` | Feedback.php:130-184 | every result is the combined lists of the selected keys and an order-preserving sublist of all messages |
| `Selectors.GetConcat` | Feedback.php:153-183 | a selector's result on two stores in sequence is its result on each, in sequence |
| `Selectors.GetNonEmptyIff` | Feedback.php:39-42 | in a store of non-empty lists, a selector returns something exactly when it keeps some key |
| `Selectors.AppendThenGet` | Feedback.php:104-113 | after an append, a selector that keeps the key returns the message: last when the key is new, otherwise right after the messages up to and including that key's earlier ones, before those of later keys; a selector that does not keep the key returns what it did before |
| `Selectors.KeySelectsItself` | Feedback.php:139-182 | a key without `!` is kept by itself used as a selector |
| `Selectors.SetThenGet` | Feedback.php:104-113 | a message set under a type without `!` is returned by getting that type: last when the key is new, otherwise right after that key's earlier messages |
| `Selectors.BangKeyHidesItself` | Feedback.php:179 | a message set under `a!b` is not returned by the selector `a!b` |
| `Selectors.HasAfterAnySet` | Feedback.php:39-42 | `has()` is false on an empty store and true after any append |
| `Selectors.ExampleAll` | Feedback.php:119 | on the example store, `null` returns A, B, C |
| `Selectors.ExampleType` | Feedback.php:122 | on the example store, `error` returns A, B (the key `error.email` contains `error`) |
| `Selectors.ExampleNamespace` | Feedback.php:124 | on the example store, `.email` returns B, C |
| `Selectors.ExampleNegatedNamespace` | Feedback.php:126 | on the example store, `!email` returns A |
| `Selectors.ExampleTypedNamespace` | Feedback.php:123 | on the example store, `error.email` returns B |
| `Selectors.ExampleTypedNegated` | Feedback.php:125 | on the example store, `error!email` returns A |
| `Calls.DecodeCall` | Feedback.php:232-263 | a name starting with `get` decodes to a get, any other to a set; a set key starts with the full method name, and a set carries no message exactly when no argument was given; a getter other than `get` builds a selector starting with the rest of its name |
| `Calls.GetterSelector` | Feedback.php:241-252 | the selector `get<Type>($ns)` builds reads as type and namespace, not negated; with `!$ns` it is negated |
| `Calls.GetterReads` | Feedback.php:235-253 | `get<Type>($ns)` returns the messages of the keys containing the type that pass the namespace test, in key order |
| `Calls.GetterReadsNegated` | Feedback.php:241-253 | `get<Type>('!' . $ns)` returns the messages of the keys containing the type that fail the namespace test, in key order |
| `Calls.SetterVisibleToGetter` | Feedback.php:235-262 | a message set with `set<Type>($msg)` is stored under `set<type>` and still found by `get<Type>()` |
| `Calls.NamespacedSetThenGet` | Feedback.php:235-262 | `set<Type>($ns, $msg)` stores under `set<Type>.$ns`, and `get<Type>($ns)` then returns the message |
| `FeedbackComponent.Combine` | Feedback.php:191-199 | the loop's result is every list of the given entries, concatenated in order |
| `FeedbackComponent.Feedback.SetMessage` | Feedback.php:104-113 | the new store is the append of the message under the lower-cased key, with key order and list contents as above; keys stay distinct and lower-case, and no list is empty |
| `FeedbackComponent.Feedback.ImportMessages` | Feedback.php:88-93 | the new store has each model message appended under the lower-cased key, in order; no other list changes, and keys stay distinct and lower-case with no empty list |
| `FeedbackComponent.Feedback.GetMessage` | Feedback.php:130-184 | the result is the selected keys' lists combined in key order, a sublist of all messages |
| `FeedbackComponent.Feedback.Has` | Feedback.php:39-42 | true exactly when the selector returns a message; in a store of non-empty lists, exactly when it keeps a key |
| `FeedbackComponent.Feedback.Flash` | Feedback.php:49-56 | without an active session it fails with the source's message; otherwise the session holds the whole store under `feedback` |
| `FeedbackComponent.Feedback.SetToFlashed` | Feedback.php:67-78 | the store is replaced by the flashed one when the session holds it and unchanged otherwise; with `flush` the key is removed; the store keeps its shape |
| `FeedbackComponent.FlashRoundTrip` | Feedback.php:49-78 | flashing and then restoring into a fresh store reproduces the store; with `flush` the session key is gone, without it the store stays restorable |

## Left out

- Session I/O through Phalcon's dependency container (`getSessionObject`, `Feedback.php:270-273`) is not modelled. The session is a value `Session(active, data)` passed in and returned, and `session_status()` is its `active` flag.
- `serialize`/`unserialize` are not modelled. The flashed store is held as itself, which is the round trip they promise. A corrupt session value cannot arise in the model.
- FeedbackComponent.Feedback.SetToFlashed: requires that a flashed value has distinct, lower-case keys and no empty list, as every store `flash` writes has. Any other session value is not modelled.
- The reflective dispatch of `__callStatic` and `__call` (`Feedback.php:208-223`) is left out. Only `callBody`'s decoding is modelled, as `Calls.DecodeCall`. A set call with no argument, where PHP stores `null` after a warning, decodes to a message `None`. It is not executed against the store, which holds strings only.
- Imported messages are Phalcon `Message` objects in the source. The model takes them as a plain `seq<string>`.
- `strtolower` is modelled on ASCII only, as PHP 8.2 and later do. Older PHP versions also lower-case by locale.
- `strpos` with an empty needle follows PHP 8: it matches at position 0, so `error.` and `error!` act as if their namespace matched every key. PHP 7 returned `false` with a warning instead.
- Keys that PHP would turn into integers (a key such as `123`) are kept as strings. Their order is the same either way.
- Process-wide static state is modelled as one object's field. There is no concurrency.
