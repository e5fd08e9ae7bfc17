/** What condition and condition-set deserialization, matching and
    serialization promise, stated over all inputs. */
module ConditionProperties {
  import opened Wrappers
  import opened Payload
  import opened Collaborators
  import opened Conditions

  // ---- Condition deserialization: the order of the checks ----

  /** A payload without "choice" is rejected before anything else is read. */
  lemma MissingChoiceReportedFirst<S>(reg: Registry<S>, data: Object, index: Option<int>)
    requires "choice" !in data
    ensures Condition.Deserialize(reg, data, index) == Failure(ChoiceNotFound(ChoiceRequired, None, index))
  {
  }

  /** With a choice present, a missing "op" is reported next. */
  lemma MissingOperatorReportedSecond<S>(reg: Registry<S>, data: Object, index: Option<int>)
    requires "choice" in data && "op" !in data
    ensures Condition.Deserialize(reg, data, index) == Failure(OperatorNotFound(OperatorRequired, None, index))
  {
  }

  /** An unknown choice id is reported with that id and the registry's
      message, and the outcome is the same whatever "op" and "value" hold:
      no operator is looked up. */
  lemma UnknownChoiceReported<S>(reg: Registry<S>, data: Object, other: Object, index: Option<int>)
    requires "choice" in data && "op" in data && GetChoice(reg, data["choice"]).None?
    requires "choice" in other && "op" in other && other["choice"] == data["choice"]
    ensures Condition.Deserialize(reg, data, index)
         == Failure(ChoiceNotFound(reg.unknownChoiceMessage(data["choice"]), Some(data["choice"]), index))
    ensures Condition.Deserialize(reg, other, index) == Condition.Deserialize(reg, data, index)
  {
  }

  /** An operator id the resolved choice does not know is reported with that
      id and the choice's message. */
  lemma UnknownOperatorReported<S>(reg: Registry<S>, data: Object, choice: Choice<S>, index: Option<int>)
    requires "choice" in data && "op" in data
    requires GetChoice(reg, data["choice"]) == Some(choice) && GetOperator(choice, data["op"]).None?
    ensures Condition.Deserialize(reg, data, index)
         == Failure(OperatorNotFound(choice.unknownOperatorMessage(data["op"]), Some(data["op"]), index))
  {
  }

  // ---- Condition deserialization: the value ----

  /** An operator with a value field requires the "value" key. */
  lemma MissingValueReported<S>(reg: Registry<S>, data: Object, choice: Choice<S>, op: Operator, index: Option<int>)
    requires "choice" in data && "op" in data
    requires GetChoice(reg, data["choice"]) == Some(choice) && GetOperator(choice, data["op"]) == Some(op)
    requires op.valueField.Some? && "value" !in data
    ensures Condition.Deserialize(reg, data, index) == Failure(InvalidValue(ValueRequired, index))
  {
  }

  /** A value the field rejects is reported with the field's message and the
      caller's condition index in place of whatever index the field gave. */
  lemma RejectedValueGetsIndex<S>(reg: Registry<S>, data: Object, choice: Choice<S>, op: Operator,
                                  message: string, fieldIndex: Option<int>, index: Option<int>)
    requires "choice" in data && "op" in data
    requires GetChoice(reg, data["choice"]) == Some(choice) && GetOperator(choice, data["op"]) == Some(op)
    requires op.valueField.Some? && "value" in data
    requires op.valueField.value.deserializeValue(data["value"]) == Failure(InvalidValue(message, fieldIndex))
    ensures Condition.Deserialize(reg, data, index) == Failure(InvalidValue(message, index))
  {
  }

  /** A KeyError raised inside the value field is caught by the same handler
      as a missing "value" key and reported as a missing value. */
  lemma FieldKeyErrorReadsAsMissingValue<S>(reg: Registry<S>, data: Object, choice: Choice<S>, op: Operator,
                                            index: Option<int>)
    requires "choice" in data && "op" in data
    requires GetChoice(reg, data["choice"]) == Some(choice) && GetOperator(choice, data["op"]) == Some(op)
    requires op.valueField.Some? && "value" in data
    requires op.valueField.value.deserializeValue(data["value"]) == Failure(KeyError)
    ensures Condition.Deserialize(reg, data, index) == Failure(InvalidValue(ValueRequired, index))
  {
  }

  /** An explicit `"value": null` is not a missing value: it is handed to the
      field, whose verdict decides the outcome; an accepted null raw value
      leaves the raw value equal to the deserialized one. */
  lemma ExplicitNullReachesValueField<S>(reg: Registry<S>, data: Object, choice: Choice<S>, op: Operator,
                                         index: Option<int>)
    requires "choice" in data && "op" in data
    requires GetChoice(reg, data["choice"]) == Some(choice) && GetOperator(choice, data["op"]) == Some(op)
    requires op.valueField.Some? && "value" in data && data["value"] == JNull
    ensures var r := Condition.Deserialize(reg, data, index);
            match op.valueField.value.deserializeValue(JNull)
            case Success(v) => r == Success(Condition(choice, op, v, v))
            case Failure(e) => r.Failure? && (e.InvalidValue? ==> r == Failure(InvalidValue(e.message, index)))
  {
  }

  /** Without a value field the condition has neither value nor raw value,
      and the payload's "value" key, present or not, changes nothing. */
  lemma NoValueFieldIgnoresValue<S>(reg: Registry<S>, data: Object, other: Object, choice: Choice<S>, op: Operator,
                                    index: Option<int>)
    requires "choice" in data && "op" in data
    requires GetChoice(reg, data["choice"]) == Some(choice) && GetOperator(choice, data["op"]) == Some(op)
    requires op.valueField.None?
    requires "choice" in other && "op" in other && other["choice"] == data["choice"] && other["op"] == data["op"]
    ensures Condition.Deserialize(reg, data, index) == Success(Condition(choice, op, JNull, JNull))
    ensures Condition.Deserialize(reg, other, index) == Condition.Deserialize(reg, data, index)
  {
  }

  // ---- Condition matching ----

  /** A condition sees the runtime value only through its choice's
      extraction, and its raw value plays no part in matching. */
  lemma ConditionMatchesThroughChoice<S>(c: Condition<S>, v: S, w: S, raw: Json)
    requires c.choice.getMatchValue(v) == c.choice.getMatchValue(w)
    ensures c.Matches(v) == c.Matches(w)
    ensures c.(rawValue := raw).Matches(v) == c.Matches(v)
  {
  }

  // ---- Condition serialization and the round trip ----

  /** The condition's choice and operator are the ones the registry files
      under their ids. */
  ghost predicate Registered<S>(reg: Registry<S>, c: Condition<S>)
  {
    && c.choice.choiceId in reg.choices
    && reg.choices[c.choice.choiceId] == c.choice
    && c.operator.operatorId in c.choice.operators
    && c.choice.operators[c.operator.operatorId] == c.operator
  }

  /** The condition holds no value without a value field, and its value
      field reads back what it writes for the condition's value. */
  ghost predicate ValueRoundTrips<S>(c: Condition<S>)
  {
    match c.operator.valueField
    case None => c.value == JNull
    case Some(field) => field.deserializeValue(SerializedValue(field, c.value)) == Success(c.value)
  }

  /** Deserializing a serialized condition gives back its choice, operator
      and value. */
  lemma ConditionRoundTrip<S>(reg: Registry<S>, c: Condition<S>, index: Option<int>)
    requires Registered(reg, c) && ValueRoundTrips(c)
    ensures var r := Condition.Deserialize(reg, c.Serialize(), index);
            && r.Success?
            && r.value.choice == c.choice && r.value.operator == c.operator && r.value.value == c.value
  {
  }

  /** A condition built directly keeps its value as its raw value, while the
      same condition read back from its payload has the serialized form as
      raw value unless that form is None, in which case it falls back to the
      value: the two differ whenever the serialized form is neither None nor
      the value itself. */
  lemma RawValueDefaultDiffersFromPayload<S>(reg: Registry<S>, choice: Choice<S>, op: Operator, value: Json,
                                             index: Option<int>)
    requires Registered(reg, Condition.Create(choice, op, value))
    requires ValueRoundTrips(Condition.Create(choice, op, value))
    requires op.valueField.Some? && value != JNull
    ensures var c := Condition.Create(choice, op, value);
            var r := Condition.Deserialize(reg, c.Serialize(), index);
            var raw := op.valueField.value.serializeValue(value);
            && c.rawValue == value
            && r.Success? && r.value.value == value
            && r.value.rawValue == (if raw == JNull then value else raw)
            && (raw != JNull && raw != value ==> r.value.rawValue != c.rawValue)
  {
    var c := Condition.Create(choice, op, value);
    ConditionRoundTrip(reg, c, index);
    assert ResolvedFrom(reg, c.Serialize(), Condition.Deserialize(reg, c.Serialize(), index).value);
  }

  /** Serializing a deserialized condition writes back the payload's choice
      and operator ids, and a "value" key exactly when the operator takes
      one. */
  lemma DeserializeThenSerialize<S>(reg: Registry<S>, data: Object, index: Option<int>, c: Condition<S>)
    requires WellKeyed(reg)
    requires Condition.Deserialize(reg, data, index) == Success(c)
    ensures c.Serialize()["choice"] == data["choice"] && c.Serialize()["op"] == data["op"]
    ensures "value" in c.Serialize() <==> c.operator.valueField.Some?
  {
    assert ResolvedFrom(reg, data, c);
    var choiceKey, opKey := data["choice"].s, data["op"].s;
    assert reg.choices[choiceKey] == c.choice;
    assert c.choice.operators[opKey] == c.operator;
  }

  // ---- Condition sets: the mode ----

  /** Each mode's name is read back as that mode. */
  lemma ModeNameRoundTrip(m: Mode)
    ensures ParseMode(JStr(ModeName(m))) == Some(m)
  {
  }

  /** Construction and deserialization reject the same modes with the same
      error, whatever the conditions. */
  lemma InvalidModeRejectedByBoth<S>(reg: Registry<S>, data: Object, conditions: seq<Condition<S>>)
    requires ParseMode(ModeOf(data)).None?
    ensures ConditionSet.Deserialize(reg, data) == ConditionSet.Create(ModeOf(data), conditions)
    ensures ConditionSet.Deserialize(reg, data) == Failure(InvalidMode(InvalidModeMessage(ModeOf(data))))
  {
  }

  /** A payload without "mode" is rejected, and the message names `None`. */
  lemma AbsentModeRejected<S>(reg: Registry<S>, data: Object)
    requires "mode" !in data
    ensures var r := ConditionSet.Deserialize(reg, data);
            r.Failure? && r.error.InvalidMode? && Contains(r.error.message, "None")
  {
  }

  /** A payload without "conditions" gives an empty set. */
  lemma AbsentConditionsGiveEmptySet<S>(reg: Registry<S>, data: Object, m: Mode)
    requires ParseMode(ModeOf(data)) == Some(m) && "conditions" !in data
    ensures ConditionSet.Deserialize(reg, data) == Success(ConditionSet(m, []))
  {
  }

  // ---- Condition sets: error attribution ----

  /** When a well-formed list of conditions fails to deserialize, the error
      is the one of the first failing element, every element before it
      deserializes, and the error names that element's position, unless it
      is an exception the value field raised and no condition index applies,
      or the element is not a dictionary at all. */
  lemma FirstFailureAttributed<S>(reg: Registry<S>, data: Object, items: seq<Json>)
    requires ParseMode(ModeOf(data)).Some? && ConditionsOf(data) == JArr(items)
    requires ConditionSet.Deserialize(reg, data).Failure?
    ensures var e := ConditionSet.Deserialize(reg, data).error;
            exists i ::
              && FirstFailureAt(reg, items, i, e)
              && (items[i].JObj? ==> e.IndexedAt(Some(i)) || RaisedByValueField(reg, items[i].fields, e))
              && (!items[i].JObj? ==> e == TypeError)
  {
    var e := ConditionSet.Deserialize(reg, data).error;
    var i :| FirstFailureAt(reg, items, i, e);
    if items[i].JObj? {
      assert Condition.Deserialize(reg, items[i].fields, Some(i)) == Failure(e);
    }
  }

  // ---- Condition sets: matching ----

  /** "all" over no conditions holds. */
  lemma EmptyAllMatches<S>(v: S)
    ensures var s: ConditionSet<S> := ConditionSet(All, []); s.Matches(v)
  {
  }

  /** "any" over no conditions fails. */
  lemma EmptyAnyFails<S>(v: S)
    ensures var s: ConditionSet<S> := ConditionSet(Any, []); !s.Matches(v)
  {
  }

  /** The order of the conditions, and repeats among them, do not change
      whether a set matches. */
  lemma MatchesIgnoresOrder<S>(s: ConditionSet<S>, t: ConditionSet<S>, v: S)
    requires s.mode == t.mode
    requires forall i | 0 <= i < |s.conditions| :: exists j | 0 <= j < |t.conditions| :: t.conditions[j] == s.conditions[i]
    requires forall j | 0 <= j < |t.conditions| :: exists i | 0 <= i < |s.conditions| :: s.conditions[i] == t.conditions[j]
    ensures s.Matches(v) == t.Matches(v)
  {
  }

  // ---- Condition sets: the round trip ----

  /** Deserializing a serialized set gives back its mode and, position by
      position, each condition's choice, operator and value. */
  lemma ConditionSetRoundTrip<S>(reg: Registry<S>, s: ConditionSet<S>)
    requires forall i | 0 <= i < |s.conditions| :: Registered(reg, s.conditions[i]) && ValueRoundTrips(s.conditions[i])
    ensures var r := ConditionSet.Deserialize(reg, s.Serialize());
            && r.Success?
            && r.value.mode == s.mode
            && |r.value.conditions| == |s.conditions|
            && forall i | 0 <= i < |s.conditions| ::
                 && r.value.conditions[i].choice == s.conditions[i].choice
                 && r.value.conditions[i].operator == s.conditions[i].operator
                 && r.value.conditions[i].value == s.conditions[i].value
  {
    var data := s.Serialize();
    var items := data["conditions"].items;
    ModeNameRoundTrip(s.mode);
    forall i | 0 <= i < |items|
      ensures DeserializeItem(reg, items[i], i).Success?
      ensures var c := DeserializeItem(reg, items[i], i).value;
              c.choice == s.conditions[i].choice && c.operator == s.conditions[i].operator
              && c.value == s.conditions[i].value
    {
      ConditionRoundTrip(reg, s.conditions[i], Some(i));
    }
  }
}
