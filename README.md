# djblets conditions: a Dafny model

This project models the rule-matching engine of djblets
(`djblets/conditions/conditions.py`): a **condition** pairs a *choice* (the
attribute inspected), an *operator* (the comparison) and a *value* (the
operand); a **condition set** combines conditions under the mode `"all"` or
`"any"`. Both are built once and never changed, so both are Dafny datatypes,
and every operation is a function:

- `Condition.Create` and `ConditionSet.Create` are the two `__init__`s;
- `Condition.Deserialize` and `ConditionSet.Deserialize` read a payload
  (a dictionary of JSON values) and return a `Result`: the condition or set,
  or the exception Python would raise;
- `Condition.Matches` and `ConditionSet.Matches` evaluate a runtime value;
- `Condition.Serialize` and `ConditionSet.Serialize` write the payload back.

Files:

| file | module | contents |
|---|---|---|
| `wrappers.dfy` | `Wrappers` | `Option`, `Result` |
| `payload.dfy` | `Payload` | the `Json` payload type, Python's `%s` text of a value, substring test |
| `collaborators.dfy` | `Collaborators` | the error classes, value fields, operators, choices, the choice registry |
| `conditions.dfy` | `Conditions` | `Condition`, `Mode`, `ConditionSet` and their operations |
| `properties.dfy` | `ConditionProperties` | lemmas: check order, error attribution, all/any, round trips |
| `scenarios.dfy` | `Scenarios` | a concrete "status" registry and the outcomes of three small payloads |

The collaborators the engine calls but does not define are records of
identifiers and uninterpreted functions, injected as parameters: the choice
registry is a `map` from choice id to `Choice`; a `Choice` holds a `map` from
operator id to `Operator`, the message its `get_operator` raises, and
`getMatchValue`; an `Operator` holds an optional `ValueField` and `matches`;
a `ValueField` is a deserializer that may raise and a serializer. The type of
the runtime value that conditions match against is the type parameter `S`.
`Json`'s `JNull` stands for Python's `None` everywhere, and the values value
fields produce are `Json` values too, so that `raw_value` can default to
`value` as in the source.

The error datatype has the four condition errors (`ChoiceNotFound`,
`OperatorNotFound`, `InvalidValue`, `InvalidMode`) and two of Python's
built-in exceptions. `TypeError` reaches callers: it is raised when the
`"conditions"` entry cannot be iterated or an element of it is not a
dictionary. `KeyError` is in the datatype only because a value field may
raise it; it never reaches callers. The code's `except KeyError` around both
the `data['value']` lookup and the call to `deserialize_value`
(conditions.py lines 128-138) also catches a `KeyError` raised inside the
value field and reports it as "A value is required."; the model does the
same (`FieldKeyErrorReadsAsMissingValue`), and both deserializers promise
that no failure is a `KeyError`. An exception of another class raised by the
value field passes through unchanged; the caller's index is not attached
to it, so the `condition_index` that the docstring at conditions.py lines
55-58 describes is set by the engine on its own errors only (`Condition.Deserialize`'s
third `ensures`).

Mode is a two-valued datatype, so the unreachable `assert False` branch of
`ConditionSet.matches` has no counterpart.

## Model

| member | source | states |
|---|---|---|
| `Conditions.Condition.Deserialize` | djblets/conditions/conditions.py:42-154 | succeeds exactly when "choice" and "op" are present, both ids resolve and the value field (if any) accepts a present "value"; on success the condition's choice and operator are the registry's for those ids, and its value is the field's result (None and raw None without a field, raw value defaulting to value when the payload holds null); every failure names the caller's condition index, except an exception raised by the value field other than InvalidValue and KeyError, which passes through; no failure is a KeyError |
| `Conditions.Condition.Create` | djblets/conditions/conditions.py:156-179 | stores choice, operator and value unchanged; the raw value is the given one unless it is None, in which case it is the value |
| `Conditions.Condition.Serialize` | djblets/conditions/conditions.py:196-217 | the payload has keys "choice" and "op" (the choice's and operator's ids) and "value" exactly when the operator has a value field; that value is None when the condition's value is None, whatever the field's serializer would give, and the serializer's output otherwise |
| `Conditions.Condition.Matches` | djblets/conditions/conditions.py:181-194 | the condition's verdict is the operator's verdict on what the choice extracts from the runtime value and on the stored value (this repeats the body; what it means is stated by `ConditionMatchesThroughChoice` and the set-level lemmas) |
| `Conditions.SerializedValue` | djblets/conditions/conditions.py:209-213 | None serializes to None and never reaches the serializer; any other value goes through `serialize_value` (the contract repeats the body's two branches) |
| `Conditions.DeserializeItem` | djblets/conditions/conditions.py:291-293 | a dictionary element at position i is deserialized with condition index i; an element that is not a dictionary raises TypeError (its subscript at line 79 fails) (the contract repeats the body's two branches) |
| `Conditions.ModeOf` | djblets/conditions/conditions.py:280 | `data.get('mode')`: the "mode" entry, or None when absent |
| `Conditions.ConditionsOf` | djblets/conditions/conditions.py:293 | `data.get('conditions', [])`: the "conditions" entry, or an empty list when absent |
| `Payload.Show` | djblets/conditions/conditions.py:287-289 | the `%s` text of a value: "None" for None, "True"/"False", the string itself, and a number's decimal digits with a leading "-" when negative |
| `Payload.Digits` | djblets/conditions/conditions.py:287-289 | a non-empty string of decimal digits, without a leading zero, whose value is the given number |
| `Conditions.ParseMode` | djblets/conditions/conditions.py:241-245 | a payload value names a mode exactly when it is "all" or "any", and then it is that mode's name |
| `Conditions.InvalidModeMessage` | djblets/conditions/conditions.py:287-289 | the InvalidMode message contains the text of the offending value |
| `Conditions.Elements` | djblets/conditions/conditions.py:291-293 | a list yields its elements; a string or dictionary succeeds exactly when empty, yielding nothing, and raises TypeError otherwise; null, a number or a boolean raises TypeError |
| `Conditions.DeserializeAll` | djblets/conditions/conditions.py:291-294 | succeeds exactly when every element deserializes with its own position as index, and then element i gives condition i; on failure the error is that of the first failing element, every earlier one having succeeded |
| `Conditions.AllMatch` | djblets/conditions/conditions.py:334-346 | `all` over the conditions' results is true exactly when every condition matches |
| `Conditions.AnyMatch` | djblets/conditions/conditions.py:334-346 | `any` over the conditions' results is true exactly when some condition matches |
| `Conditions.ConditionSet.Create` | djblets/conditions/conditions.py:296-317 | succeeds exactly for the modes "all" and "any", storing that mode and the conditions as given; otherwise raises InvalidMode naming the value |
| `Conditions.ConditionSet.Deserialize` | djblets/conditions/conditions.py:247-294 | an invalid or absent mode is rejected first with InvalidMode naming it; on success the conditions are the list's elements deserialized in order with their positions as indexes; any other failure is the iteration's TypeError or the first failing element's error, with no partial set; no failure is a KeyError |
| `Conditions.ConditionSet.Matches` | djblets/conditions/conditions.py:319-346 | for "all" true iff every condition matches; for "any" true iff some condition matches |
| `Conditions.ConditionSet.Serialize` | djblets/conditions/conditions.py:348-362 | the payload has exactly "mode" (the mode's name) and "conditions", the conditions serialized in stored order |
| `ConditionProperties.MissingChoiceReportedFirst` | djblets/conditions/conditions.py:78-87 | without "choice" the result is ChoiceNotFound with no id and the caller's index, whatever else the payload holds |
| `ConditionProperties.MissingOperatorReportedSecond` | djblets/conditions/conditions.py:89-98 | with "choice" but without "op" the result is OperatorNotFound with no id and the caller's index |
| `ConditionProperties.UnknownChoiceReported` | djblets/conditions/conditions.py:100-111 | an unknown choice id gives ChoiceNotFound with that id, the registry's message and the index, and the result does not depend on "op" or "value" |
| `ConditionProperties.UnknownOperatorReported` | djblets/conditions/conditions.py:113-124 | an operator id unknown to the resolved choice gives OperatorNotFound with that id, the choice's message and the index |
| `ConditionProperties.MissingValueReported` | djblets/conditions/conditions.py:127-138 | an operator with a value field and no "value" key gives InvalidValue("A value is required.") with the index |
| `ConditionProperties.RejectedValueGetsIndex` | djblets/conditions/conditions.py:139-146 | the field's InvalidValue is re-raised with its message and the caller's index in place of the field's |
| `ConditionProperties.FieldKeyErrorReadsAsMissingValue` | djblets/conditions/conditions.py:128-138 | a KeyError raised inside the value field is reported as a missing value |
| `ConditionProperties.ExplicitNullReachesValueField` | djblets/conditions/conditions.py:127-154 | `"value": null` is passed to the field and its verdict decides: if accepted the condition's value is the field's result and its raw value equals it; if the field raises InvalidValue, that message comes back with the caller's index |
| `ConditionProperties.NoValueFieldIgnoresValue` | djblets/conditions/conditions.py:147-149 | without a value field the condition has value and raw value None, and any "value" key is ignored |
| `ConditionProperties.ConditionMatchesThroughChoice` | djblets/conditions/conditions.py:181-194 | matching sees the runtime value only through the choice's extraction, and the raw value plays no part |
| `ConditionProperties.ConditionRoundTrip` | djblets/conditions/conditions.py:42-217 | for a registered condition whose value field reads back what it writes, deserializing its payload gives back its choice, operator and value |
| `ConditionProperties.RawValueDefaultDiffersFromPayload` | djblets/conditions/conditions.py:127-179 | a condition built directly has its value as raw value, while the same condition read back from its payload has the serialized form as raw value unless that form is None (then it falls back to the value), so the two differ whenever the serialized form is neither None nor the value itself |
| `ConditionProperties.DeserializeThenSerialize` | djblets/conditions/conditions.py:100-217 | with a registry that files choices and operators under their own ids, serializing a deserialized condition writes back the payload's "choice" and "op", and "value" exactly when the operator takes one |
| `ConditionProperties.ModeNameRoundTrip` | djblets/conditions/conditions.py:241-245 | each mode's name reads back as that mode |
| `ConditionProperties.InvalidModeRejectedByBoth` | djblets/conditions/conditions.py:280-314 | construction and deserialization reject the same invalid modes with the same InvalidMode error, whatever the conditions |
| `ConditionProperties.AbsentModeRejected` | djblets/conditions/conditions.py:280-289 | a payload without "mode" raises InvalidMode whose message contains "None" |
| `ConditionProperties.AbsentConditionsGiveEmptySet` | djblets/conditions/conditions.py:291-294 | a valid mode and no "conditions" key give an empty set of that mode |
| `ConditionProperties.FirstFailureAttributed` | djblets/conditions/conditions.py:291-294 | a failing list reports the first failing element's error, all earlier elements succeed, and the error names that element's position (or is TypeError for a non-dictionary element, or the value field's own exception) |
| `ConditionProperties.EmptyAllMatches` | djblets/conditions/conditions.py:334-346 | "all" over no conditions matches |
| `ConditionProperties.EmptyAnyFails` | djblets/conditions/conditions.py:334-346 | "any" over no conditions does not match |
| `ConditionProperties.MatchesIgnoresOrder` | djblets/conditions/conditions.py:343-346 | two sets with the same mode and the same conditions in any order or multiplicity match the same values |
| `ConditionProperties.ConditionSetRoundTrip` | djblets/conditions/conditions.py:247-362 | deserializing a serialized set of registered, round-tripping conditions succeeds with the same mode and, position by position, the same choice, operator and value |
| `Scenarios.OpenStatusScenario` | djblets/conditions/conditions.py:247-346 | the set `{"mode": "all", "conditions": [status is "open"]}` deserializes and matches `{"status": "open"}` but not `{"status": "closed"}` |
| `Scenarios.SecondConditionMalformed` | djblets/conditions/conditions.py:89-98 | a set whose second of three conditions lacks "op" is rejected with OperatorNotFound at index 1 |
| `Scenarios.SometimesIsNotAMode` | djblets/conditions/conditions.py:311-314 | constructing a set with mode "sometimes" raises InvalidMode whose message contains "sometimes" |

## Left out

- The `logging.debug` calls: diagnostics that never change control flow.
- Translation with `ugettext`: messages are the untranslated English strings.
- The choice registry, `get_operator`, `get_match_value`, `operator.matches` and the value fields' (de)serialization are uninterpreted functions supplied by the caller; `djblets/conditions/errors.py` and the choice and operator modules are not part of this model, and the error classes keep only their message, ids and condition index.
- Registry lookups are by string id: a choice or operator id that is not a string is treated as unknown, where a real registry might raise something else for an unhashable id.
- Exceptions raised by `get_choice` or `get_operator` other than the not-found errors, and any exception raised by `get_match_value` or `operator.matches`: collaborators are total functions here.
- Python object identity: re-raising the field's InvalidValue with a new index builds a new error value rather than changing the raised object.
- `Payload.Show`: lists and dictionaries are abbreviated to `[...]` and `{...}` in the InvalidMode message rather than printed element by element; JSON numbers are integers only.
- The values value fields produce are represented as `Json` values, not as arbitrary Python objects.
- The shared mutable default `conditions=[]` of `ConditionSet.__init__`: Dafny sequences are values, so no two sets can share one.
- `Collaborators.Error`: an explicit null choice or operator id is reported as `Some(JNull)` and a missing key as `None`, where Python's `choice_id`/`operator_id` attribute is `None` in both cases; the model keeps the two apart.
