/** Conditions and sets of conditions: a condition pairs a choice, an
    operator and a value; a condition set combines conditions under the
    mode "all" or "any". Both are built once and never changed, so both
    are values here. */
module Conditions {
  import opened Wrappers
  import opened Payload
  import opened Collaborators

  const ChoiceRequired := "A choice is required."
  const OperatorRequired := "An operator is required."
  const ValueRequired := "A value is required."

  /** The payload value a condition's value serializes to: `None` stays
      `None` and never reaches the field's serializer. */
  function SerializedValue(field: ValueField, value: Json): (raw: Json)
    ensures value == JNull ==> raw == JNull
    ensures value != JNull ==> raw == field.serializeValue(value)
  {
    if value == JNull then JNull else field.serializeValue(value)
  }

  /** `data` names a registered choice and one of its operators, and those
      are the condition's; the condition's value is what the operator's
      value field made of `data["value"]`, or `None` without a value field. */
  ghost predicate ResolvedFrom<S>(reg: Registry<S>, data: Object, c: Condition<S>)
  {
    && "choice" in data && "op" in data
    && GetChoice(reg, data["choice"]) == Some(c.choice)
    && GetOperator(c.choice, data["op"]) == Some(c.operator)
    && match c.operator.valueField
       case None => c.value == JNull && c.rawValue == JNull
       case Some(field) =>
         && "value" in data
         && field.deserializeValue(data["value"]) == Success(c.value)
         && c.rawValue == (if data["value"] == JNull then c.value else data["value"])
  }

  /** Every lookup `data` needs succeeds and the value field, if any, accepts
      the payload's value. */
  ghost predicate Deserializable<S>(reg: Registry<S>, data: Object)
  {
    && "choice" in data && "op" in data
    && GetChoice(reg, data["choice"]).Some?
    && var choice := GetChoice(reg, data["choice"]).value;
    && GetOperator(choice, data["op"]).Some?
    && var op := GetOperator(choice, data["op"]).value;
    && (op.valueField.Some? ==>
          "value" in data && op.valueField.value.deserializeValue(data["value"]).Success?)
  }

  /** `e` is an exception other than `InvalidValue` and `KeyError` that the
      operator's value field raised on `data["value"]`; such an exception
      passes through condition deserialization untouched. */
  ghost predicate RaisedByValueField<S>(reg: Registry<S>, data: Object, e: Error)
  {
    && "choice" in data && "op" in data
    && GetChoice(reg, data["choice"]).Some?
    && var choice := GetChoice(reg, data["choice"]).value;
    && GetOperator(choice, data["op"]).Some?
    && var op := GetOperator(choice, data["op"]).value;
    && op.valueField.Some? && "value" in data
    && op.valueField.value.deserializeValue(data["value"]) == Failure(e)
    && !e.InvalidValue? && !e.KeyError?
  }

  /** A single rule. `rawValue` is the value as it appeared in the payload. */
  datatype Condition<!S> = Condition(
    choice: Choice<S>,
    operator: Operator,
    value: Json,
    rawValue: Json)
  {
    /** Builds a condition directly; a raw value that is not given (or is
        `None`) defaults to the value. */
    static function Create(choice: Choice<S>, operator: Operator,
                           value: Json := JNull, rawValue: Json := JNull): (c: Condition<S>)
      ensures c.choice == choice && c.operator == operator && c.value == value
      ensures rawValue != JNull ==> c.rawValue == rawValue
      ensures rawValue == JNull ==> c.rawValue == value
    {
      Condition(choice, operator, value, if rawValue == JNull then value else rawValue)
    }

    /** Deserializes a condition from a payload object, resolving the choice,
        then the operator, then the value, and raising the first failure. */
    static function Deserialize(reg: Registry<S>, data: Object,
                                conditionIndex: Option<int> := None): (r: Result<Condition<S>, Error>)
      ensures r.Success? <==> Deserializable(reg, data)
      ensures r.Success? ==> ResolvedFrom(reg, data, r.value)
      ensures r.Failure? ==> r.error.IndexedAt(conditionIndex) || RaisedByValueField(reg, data, r.error)
      ensures r.Failure? ==> !r.error.KeyError?
    {
      if "choice" !in data then
        Failure(ChoiceNotFound(ChoiceRequired, None, conditionIndex))
      else if "op" !in data then
        Failure(OperatorNotFound(OperatorRequired, None, conditionIndex))
      else
        var choiceId, operatorId := data["choice"], data["op"];
        match GetChoice(reg, choiceId)
        case None =>
          Failure(ChoiceNotFound(reg.unknownChoiceMessage(choiceId), Some(choiceId), conditionIndex))
        case Some(choice) =>
          match GetOperator(choice, operatorId)
          case None =>
            Failure(OperatorNotFound(choice.unknownOperatorMessage(operatorId), Some(operatorId), conditionIndex))
          case Some(operator) =>
            match operator.valueField
            case None => Success(Create(choice, operator, JNull, JNull))
            case Some(field) =>
              if "value" !in data then
                Failure(InvalidValue(ValueRequired, conditionIndex))
              else
                var rawValue := data["value"];
                match field.deserializeValue(rawValue)
                case Success(value) => Success(Create(choice, operator, value, rawValue))
                // `except KeyError` also catches a KeyError raised inside the field.
                case Failure(KeyError) => Failure(InvalidValue(ValueRequired, conditionIndex))
                case Failure(InvalidValue(message, _)) => Failure(InvalidValue(message, conditionIndex))
                case Failure(e) => Failure(e)
    }

    /** Whether the runtime value `v` fulfils the condition: the operator's
        verdict on what the choice extracts from `v` and the stored value. */
    function Matches(v: S): (r: bool)
      ensures r == operator.matches(choice.getMatchValue(v), value)
    {
      operator.matches(choice.getMatchValue(v), value)
    }

    /** Serializes the condition to a payload object. */
    function Serialize(): (data: Object)
      ensures data.Keys == if operator.valueField.Some? then {"choice", "op", "value"} else {"choice", "op"}
      ensures data["choice"] == JStr(choice.choiceId) && data["op"] == JStr(operator.operatorId)
      ensures operator.valueField.Some? ==> data["value"] == SerializedValue(operator.valueField.value, value)
    {
      var data := map["choice" := JStr(choice.choiceId), "op" := JStr(operator.operatorId)];
      match operator.valueField
      case None => data
      case Some(field) => data["value" := SerializedValue(field, value)]
    }
  }

  /** How a condition set combines the results of its conditions. */
  datatype Mode = All | Any

  const ModeAll := "all"
  const ModeAny := "any"

  function ModeName(mode: Mode): string
  {
    match mode
    case All => ModeAll
    case Any => ModeAny
  }

  /** The mode a payload value names, if it names one. */
  function ParseMode(j: Json): (r: Option<Mode>)
    ensures r.Some? <==> j == JStr(ModeAll) || j == JStr(ModeAny)
    ensures r.Some? ==> j == JStr(ModeName(r.value))
  {
    if j == JStr(ModeAll) then Some(All)
    else if j == JStr(ModeAny) then Some(Any)
    else None
  }

  /** The message of the error raised for an invalid mode. */
  function InvalidModeMessage(mode: Json): (message: string)
    ensures Contains(message, Show(mode))
  {
    var prefix := "\"";
    var message := prefix + Show(mode) + "\" is not a valid condition mode.";
    assert OccursAt(message, Show(mode), |prefix|);
    message
  }

  /** `data.get("mode")`. */
  function ModeOf(data: Object): (mode: Json)
    ensures "mode" in data ==> mode == data["mode"]
    ensures "mode" !in data ==> mode == JNull
  {
    if "mode" in data then data["mode"] else JNull
  }

  /** `data.get("conditions", [])`. */
  function ConditionsOf(data: Object): (conditions: Json)
    ensures "conditions" in data ==> conditions == data["conditions"]
    ensures "conditions" !in data ==> conditions == JArr([])
  {
    if "conditions" in data then data["conditions"] else JArr([])
  }

  /** The elements Python's `enumerate` visits, or the TypeError met first:
      a value that is not iterable raises at once, and a non-empty string
      or dictionary yields string elements, the first of which cannot be
      read as a condition. */
  function Elements(j: Json): (r: Result<seq<Json>, Error>)
    ensures r.Success? ==> (j.JArr? && r.value == j.items) || r.value == []
    ensures r.Failure? ==> r.error == TypeError
    ensures j.JArr? ==> r == Success(j.items)
    ensures j.JStr? ==> (r.Success? <==> |j.s| == 0)
    ensures j.JObj? ==> (r.Success? <==> |j.fields| == 0)
    ensures !(j.JArr? || j.JStr? || j.JObj?) ==> r == Failure(TypeError)
  {
    match j
    case JArr(items) => Success(items)
    case JStr(s) => if |s| == 0 then Success([]) else Failure(TypeError)
    case JObj(fields) => if |fields| == 0 then Success([]) else Failure(TypeError)
    case _ => Failure(TypeError)
  }

  /** Deserializes the element at position `index` of the conditions list;
      an element that is not a dictionary cannot be subscripted. */
  function DeserializeItem<S>(reg: Registry<S>, item: Json, index: nat): (r: Result<Condition<S>, Error>)
    ensures !item.JObj? ==> r == Failure(TypeError)
    ensures item.JObj? ==> r == Condition.Deserialize(reg, item.fields, Some(index))
  {
    match item
    case JObj(fields) => Condition.Deserialize(reg, fields, Some(index))
    case _ => Failure(TypeError)
  }

  /** The first element of `items` that fails to deserialize is at `i`, and
      fails with `e`. */
  ghost predicate FirstFailureAt<S>(reg: Registry<S>, items: seq<Json>, i: int, e: Error)
  {
    && 0 <= i < |items|
    && (forall j | 0 <= j < i :: DeserializeItem(reg, items[j], j).Success?)
    && DeserializeItem(reg, items[i], i) == Failure(e)
  }

  /** Deserializes every element of `items`, each with its own position as
      its condition index, in order, stopping at the first failure. */
  function DeserializeAll<S>(reg: Registry<S>, items: seq<Json>): (r: Result<seq<Condition<S>>, Error>)
    ensures r.Success? <==> forall i | 0 <= i < |items| :: DeserializeItem(reg, items[i], i).Success?
    ensures r.Success? ==>
      && |r.value| == |items|
      && forall i | 0 <= i < |items| :: DeserializeItem(reg, items[i], i) == Success(r.value[i])
    ensures r.Failure? ==> exists i :: FirstFailureAt(reg, items, i, r.error)
  {
    if |items| == 0 then Success([])
    else
      var last := |items| - 1;
      match DeserializeAll(reg, items[..last])
      case Failure(e) =>
        assert forall i | FirstFailureAt(reg, items[..last], i, e) :: FirstFailureAt(reg, items, i, e);
        Failure(e)
      case Success(cs) =>
        match DeserializeItem(reg, items[last], last)
        case Failure(e) =>
          assert forall j | 0 <= j < last :: items[j] == items[..last][j];
          assert FirstFailureAt(reg, items, last, e);
          Failure(e)
        case Success(c) => Success(cs + [c])
  }

  /** Python's `all` over the conditions' results, left to right. */
  function AllMatch<S>(conditions: seq<Condition<S>>, v: S): (r: bool)
    ensures r <==> forall i | 0 <= i < |conditions| :: conditions[i].Matches(v)
  {
    |conditions| == 0 || (conditions[0].Matches(v) && AllMatch(conditions[1..], v))
  }

  /** Python's `any` over the conditions' results, left to right. */
  function AnyMatch<S>(conditions: seq<Condition<S>>, v: S): (r: bool)
    ensures r <==> exists i | 0 <= i < |conditions| :: conditions[i].Matches(v)
  {
    |conditions| > 0 && (conditions[0].Matches(v) || AnyMatch(conditions[1..], v))
  }

  /** A mode and an ordered list of conditions. */
  datatype ConditionSet<!S> = ConditionSet(mode: Mode, conditions: seq<Condition<S>>)
  {
    /** Builds a condition set, raising InvalidMode unless `mode` is "all" or
        "any". Each call gets its own empty list by default. */
    static function Create(mode: Json := JStr(ModeAll),
                           conditions: seq<Condition<S>> := []): (r: Result<ConditionSet<S>, Error>)
      ensures r.Success? <==> mode == JStr(ModeAll) || mode == JStr(ModeAny)
      ensures r.Success? ==> JStr(ModeName(r.value.mode)) == mode && r.value.conditions == conditions
      ensures r.Failure? ==> r.error.InvalidMode? && Contains(r.error.message, Show(mode))
    {
      match ParseMode(mode)
      case None => Failure(InvalidMode(InvalidModeMessage(mode)))
      case Some(m) => Success(ConditionSet(m, conditions))
    }

    /** Deserializes a condition set: the mode is checked first, then the
        conditions are deserialized in order; the first failure aborts the
        whole set. */
    static function Deserialize(reg: Registry<S>, data: Object): (r: Result<ConditionSet<S>, Error>)
      ensures ParseMode(ModeOf(data)).None? ==>
        r.Failure? && r.error.InvalidMode? && Contains(r.error.message, Show(ModeOf(data)))
      ensures r.Success? ==>
        && ParseMode(ModeOf(data)) == Some(r.value.mode)
        && Elements(ConditionsOf(data)).Success?
        && var items := Elements(ConditionsOf(data)).value;
        && |r.value.conditions| == |items|
        && forall i | 0 <= i < |items| :: DeserializeItem(reg, items[i], i) == Success(r.value.conditions[i])
      ensures r.Failure? && ParseMode(ModeOf(data)).Some? ==>
        || Elements(ConditionsOf(data)) == Failure(r.error)
        || (Elements(ConditionsOf(data)).Success? &&
            exists i :: FirstFailureAt(reg, Elements(ConditionsOf(data)).value, i, r.error))
      ensures r.Failure? ==> !r.error.KeyError?
    {
      var mode := ModeOf(data);
      if ParseMode(mode).None? then
        Failure(InvalidMode(InvalidModeMessage(mode)))
      else
        match Elements(ConditionsOf(data))
        case Failure(e) => Failure(e)
        case Success(items) =>
          match DeserializeAll(reg, items)
          case Failure(e) => Failure(e)
          case Success(conditions) => Create(mode, conditions)
    }

    /** Whether the runtime value `v` fulfils the set: every condition for
        "all", at least one for "any". */
    function Matches(v: S): (r: bool)
      ensures mode == All ==> (r <==> forall i | 0 <= i < |conditions| :: conditions[i].Matches(v))
      ensures mode == Any ==> (r <==> exists i | 0 <= i < |conditions| :: conditions[i].Matches(v))
    {
      match mode
      case All => AllMatch(conditions, v)
      case Any => AnyMatch(conditions, v)
    }

    /** Serializes the set: its mode and its conditions in stored order. */
    function Serialize(): (data: Object)
      ensures data.Keys == {"mode", "conditions"}
      ensures data["mode"] == JStr(ModeName(mode))
      ensures data["conditions"].JArr? && |data["conditions"].items| == |conditions|
      ensures forall i | 0 <= i < |conditions| :: data["conditions"].items[i] == JObj(conditions[i].Serialize())
    {
      map["mode" := JStr(ModeName(mode)),
          "conditions" := JArr(seq(|conditions|, i requires 0 <= i < |conditions| => JObj(conditions[i].Serialize())))]
    }
  }
}
