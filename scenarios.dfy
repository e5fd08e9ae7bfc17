/** A concrete registry with one choice, "status", and the outcomes of
    deserializing and matching three small payloads against it. */
module Scenarios {
  import opened Wrappers
  import opened Payload
  import opened Collaborators
  import opened Conditions

  /** Accepts "open" and "closed" and nothing else; serializes unchanged. */
  const StatusField := ValueField(
    (j: Json) =>
      if j == JStr("open") || j == JStr("closed") then Success(j)
      else Failure(InvalidValue("Not a valid status.", None)),
    (j: Json) => j)

  const Is := Operator("is", Some(StatusField), (extracted: Json, value: Json) => extracted == value)

  const IsEmpty := Operator("is_empty", None, (extracted: Json, value: Json) => extracted == JNull)

  /** Runtime values are payload objects; the choice reads their "status". */
  const Status := Choice(
    "status",
    map["is" := Is, "is_empty" := IsEmpty],
    (id: Json) => "No operator was found matching the ID.",
    (v: Json) => if v.JObj? && "status" in v.fields then v.fields["status"] else JNull)

  const Statuses := Registry(map["status" := Status], (id: Json) => "No choice was found matching the ID.")

  function StatusIs(value: string): Json
  {
    JObj(map["choice" := JStr("status"), "op" := JStr("is"), "value" := JStr(value)])
  }

  /** A set requiring the status to be "open" matches an open item and not
      a closed one. */
  lemma OpenStatusScenario()
    ensures var r := ConditionSet.Deserialize(Statuses,
                       map["mode" := JStr("all"), "conditions" := JArr([StatusIs("open")])]);
            && r.Success?
            && r.value.Matches(JObj(map["status" := JStr("open")]))
            && !r.value.Matches(JObj(map["status" := JStr("closed")]))
  {
    var data := map["mode" := JStr("all"), "conditions" := JArr([StatusIs("open")])];
    assert ModeOf(data) == JStr(ModeAll);
    assert ConditionsOf(data) == JArr([StatusIs("open")]);
    var c := Condition.Deserialize(Statuses, StatusIs("open").fields, Some(0));
    assert c == Success(Condition(Status, Is, JStr("open"), JStr("open")));
  }

  /** Of three conditions, the second lacks its operator: the set is
      rejected with an error naming position 1. */
  lemma SecondConditionMalformed()
    ensures ConditionSet.Deserialize(Statuses,
              map["mode" := JStr("any"),
                  "conditions" := JArr([StatusIs("open"), JObj(map["choice" := JStr("status")]), StatusIs("closed")])])
         == Failure(OperatorNotFound(OperatorRequired, None, Some(1)))
  {
    var items := [StatusIs("open"), JObj(map["choice" := JStr("status")]), StatusIs("closed")];
    var err := OperatorNotFound(OperatorRequired, None, Some(1));
    var data := map["mode" := JStr("any"), "conditions" := JArr(items)];
    assert ModeOf(data) == JStr(ModeAny);
    assert ConditionsOf(data) == JArr(items);
    assert items[..2][..1] == items[..1] && items[..1][..0] == [];
    assert DeserializeItem(Statuses, items[0], 0).Success? by {
      StatusIsAccepted("open", 0);
    }
    assert DeserializeAll(Statuses, items[..1]).Success?;
    assert DeserializeItem(Statuses, items[1], 1) == Failure(err);
    assert DeserializeAll(Statuses, items[..2]) == Failure(err);
    assert DeserializeAll(Statuses, items) == Failure(err);
  }

  /** A well-formed "status is" condition deserializes to the registry's
      choice and operator. */
  lemma StatusIsAccepted(value: string, index: nat)
    requires value == "open" || value == "closed"
    ensures DeserializeItem(Statuses, StatusIs(value), index)
         == Success(Condition(Status, Is, JStr(value), JStr(value)))
  {
    var data := StatusIs(value).fields;
    assert GetChoice(Statuses, data["choice"]) == Some(Status);
    assert GetOperator(Status, data["op"]) == Some(Is);
    assert StatusField.deserializeValue(JStr(value)) == Success(JStr(value));
  }

  /** "sometimes" is not a mode, and the error says so. */
  lemma SometimesIsNotAMode()
    ensures var r: Result<ConditionSet<Json>, Error> := ConditionSet.Create(JStr("sometimes"), []);
            r.Failure? && r.error.InvalidMode? && Contains(r.error.message, "sometimes")
  {
  }
}
