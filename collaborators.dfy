/** The collaborators the condition engine consumes but does not own: the
    errors it raises, value fields, operators, choices and the choice
    registry. Their own behaviour is left uninterpreted: each is a record of
    identifiers and of the functions the engine calls on it. */
module Collaborators {
  import opened Wrappers
  import opened Payload

  /** The exceptions a value field may raise and the condition engine may
      report. The first four are the condition error classes. `KeyError` is
      here only because a value field may raise it; the engine always
      reports it as a missing value, so it never leaves deserialization.
      `TypeError` is Python's built-in error for a malformed payload.
      `choiceId` and `operatorId` are `None` when the key is missing and
      `Some(JNull)` for an explicit null id; Python reports both as a `None`
      id, so `Some(JNull)` and `None` are the same to a caller. */
  datatype Error =
    | ChoiceNotFound(message: string, choiceId: Option<Json>, conditionIndex: Option<int>)
    | OperatorNotFound(message: string, operatorId: Option<Json>, conditionIndex: Option<int>)
    | InvalidValue(message: string, conditionIndex: Option<int>)
    | InvalidMode(message: string)
    | KeyError
    | TypeError
  {
    /** The error is one of the per-condition errors and names `index` as
        the condition it came from. */
    predicate IndexedAt(index: Option<int>)
    {
      (ChoiceNotFound? || OperatorNotFound? || InvalidValue?) && conditionIndex == index
    }
  }

  /** Deserializes a raw payload value into the value an operator compares
      against, raising on bad input, and serializes it back. */
  datatype ValueField = ValueField(
    deserializeValue: Json -> Result<Json, Error>,
    serializeValue: Json -> Json)

  /** A comparison. Without a value field the operator takes no operand. */
  datatype Operator = Operator(
    operatorId: string,
    valueField: Option<ValueField>,
    matches: (Json, Json) -> bool)

  /** The attribute a condition inspects. `S` is the type of the runtime
      value conditions are matched against; `getMatchValue` extracts from
      it what the operator compares. `unknownOperatorMessage` is the text
      of the error `get_operator` raises for an unknown operator id. */
  datatype Choice<!S> = Choice(
    choiceId: string,
    operators: map<string, Operator>,
    unknownOperatorMessage: Json -> string,
    getMatchValue: S -> Json)

  /** The choice registry. `unknownChoiceMessage` is the text of the error
      `get_choice` raises for an unknown choice id. */
  datatype Registry<!S> = Registry(
    choices: map<string, Choice<S>>,
    unknownChoiceMessage: Json -> string)

  /** `choices.get_choice(id)`; ids other than strings are never registered. */
  function GetChoice<S>(reg: Registry<S>, id: Json): Option<Choice<S>>
  {
    if id.JStr? && id.s in reg.choices then Some(reg.choices[id.s]) else None
  }

  /** `choice.get_operator(id)`. */
  function GetOperator<S>(choice: Choice<S>, id: Json): Option<Operator>
  {
    if id.JStr? && id.s in choice.operators then Some(choice.operators[id.s]) else None
  }

  /** Every registered choice and operator is filed under its own id. */
  ghost predicate WellKeyed<S>(reg: Registry<S>)
  {
    forall k | k in reg.choices ::
      && reg.choices[k].choiceId == k
      && forall o | o in reg.choices[k].operators :: reg.choices[k].operators[o].operatorId == o
  }
}
