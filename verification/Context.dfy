/** Building the inputs of one inference request from a JSON dataset. */
module Context {
  import opened Basics
  import opened TensorNesting

  /** A model input: its name and declared shape (-1 for a dynamic dimension). */
  datatype InputSpec = InputSpec(name: string, shape: seq<int>)

  datatype BadRequest =
    | Unparsable
    | NotAnObject
    | NotAnArray(name: string)
    | WrongRank(name: string, got: nat, expected: nat)

  datatype InputValue = InputValue(values: seq<Json>, shape: seq<int>)

  /** What the first declared input that cannot be bound reports. */
  function FirstProblem(fields: map<string, Json>, specs: seq<InputSpec>): Option<BadRequest>
  {
    if specs == [] then None
    else
      var s := specs[0];
      if s.name !in fields || !fields[s.name].Arr? then Some(NotAnArray(s.name))
      else
        var k := |Spine(fields[s.name], |s.shape|)|;
        if 2 * k + 1 < |s.shape| then Some(WrongRank(s.name, k, |s.shape|))
        else FirstProblem(fields, specs[1..])
  }

  ghost predicate Bindable(fields: map<string, Json>, s: InputSpec) {
    && s.name in fields
    && fields[s.name].Arr?
    && 2 * |Spine(fields[s.name], |s.shape|)| + 1 >= |s.shape|
  }

  /** Binding succeeds exactly when every declared input is present, an array, and nested deep enough. */
  lemma {:induction false} NoProblemMeansBindable(fields: map<string, Json>, specs: seq<InputSpec>)
    ensures FirstProblem(fields, specs).None? <==> forall i :: 0 <= i < |specs| ==> Bindable(fields, specs[i])
  {
    if specs != [] {
      NoProblemMeansBindable(fields, specs[1..]);
      if forall i :: 0 <= i < |specs| ==> Bindable(fields, specs[i]) {
        assert forall i :: 0 <= i < |specs[1..]| ==> specs[1..][i] == specs[i + 1];
      } else if Bindable(fields, specs[0]) {
        var i :| 0 <= i < |specs| && !Bindable(fields, specs[i]);
        assert specs[1..][i - 1] == specs[i];
      }
    }
  }

  lemma {:induction false} FirstProblemStep(fields: map<string, Json>, specs: seq<InputSpec>, i: nat)
    requires i < |specs|
    requires forall j :: 0 <= j < i ==> Bindable(fields, specs[j])
    ensures FirstProblem(fields, specs) == FirstProblem(fields, specs[i..])
  {
    if i > 0 {
      assert Bindable(fields, specs[0]);
      assert forall j :: 0 <= j < i - 1 ==> specs[1..][j] == specs[j + 1];
      FirstProblemStep(fields, specs[1..], i - 1);
      assert specs[1..][i - 1..] == specs[i..];
    }
  }

  /** The error is about the first input that cannot be bound: not an array, or the rank of the shape inferred for it. */
  lemma FirstProblemIs(fields: map<string, Json>, specs: seq<InputSpec>, i: nat)
    requires i < |specs| && !Bindable(fields, specs[i])
    requires forall j :: 0 <= j < i ==> Bindable(fields, specs[j])
    ensures var s := specs[i];
            FirstProblem(fields, specs) ==
            Some(if s.name !in fields || !fields[s.name].Arr? then NotAnArray(s.name)
                 else WrongRank(s.name, |ShapeWalk(fields[s.name], |s.shape|, [])|, |s.shape|))
  {
    FirstProblemStep(fields, specs, i);
    if specs[i].name in fields {
      ShapeWalkClosedForm(fields[specs[i].name], |specs[i].shape|);
    }
  }

  class RequestContext {
    var inputs: map<string, InputValue>

    constructor ()
      ensures inputs == map[]
    {
      inputs := map[];
    }

    /** `parse` stands for the bounded-depth parser that a string-encoded dataset is routed through. */
    method Bind(jsonStr: Json, parse: string -> Option<Json>, specs: seq<InputSpec>) returns (problem: Option<BadRequest>)
      requires inputs == map[]
      modifies this
      ensures match jsonStr
              case Obj(fields) => problem == FirstProblem(fields, specs) && (problem.None? ==> IsBound(inputs, fields, specs))
              case Str(text) =>
                (match parse(text)
                 case None => problem == Some(Unparsable)
                 case Some(Obj(fields)) =>
                   problem == FirstProblem(fields, specs) && (problem.None? ==> IsBound(inputs, fields, specs))
                 case Some(_) => problem == Some(NotAnObject))
              case _ => problem == Some(NotAnObject)
    {
      var dataset := jsonStr;
      if dataset.Str? {
        var parsed := parse(dataset.text);
        if parsed.None? {
          return Some(Unparsable);
        }
        dataset := parsed.value;
      }
      if !dataset.Obj? {
        return Some(NotAnObject);
      }

      for i := 0 to |specs|
        invariant forall j :: 0 <= j < i ==> Bindable(dataset.fields, specs[j])
        invariant IsBound(inputs, dataset.fields, specs[..i])
      {
        var input := specs[i];
        FirstProblemStep(dataset.fields, specs, i);
        if input.name !in dataset.fields || !dataset.fields[input.name].Arr? {
          return Some(NotAnArray(input.name));
        }
        var data := dataset.fields[input.name];
        var jsonValues := new Vector<Json>();
        FlatJsonValues(data, jsonValues);
        var inputShape := new Vector<int>();
        CalcShape(data, |input.shape|, inputShape);
        ShapeWalkClosedForm(data, |input.shape|);
        if |inputShape.items| != |input.shape| {
          return Some(WrongRank(input.name, |inputShape.items|, |input.shape|));
        }
        assert [] + Flat(data) == Flat(data);
        BindOne(inputs, dataset.fields, specs, i);
        inputs := inputs[input.name := InputValue(jsonValues.items, inputShape.items)];
      }
      NoProblemMeansBindable(dataset.fields, specs);
      assert specs[..|specs|] == specs;
      problem := None;
    }
  }

  /** Every declared input, and nothing else, holds its flat values and padded shape; a repeated name keeps the last. */
  ghost predicate IsBound(inputs: map<string, InputValue>, fields: map<string, Json>, specs: seq<InputSpec>) {
    && inputs.Keys == (set s | s in specs :: s.name)
    && (forall i :: 0 <= i < |specs| && LastOfItsName(specs, i) && specs[i].name in fields ==>
          inputs[specs[i].name] ==
          InputValue(Flat(fields[specs[i].name]), InferredShape(fields[specs[i].name], |specs[i].shape|)))
  }

  ghost predicate LastOfItsName(specs: seq<InputSpec>, i: nat)
    requires i < |specs|
  {
    forall j :: i < j < |specs| ==> specs[j].name != specs[i].name
  }

  lemma BindOne(inputs: map<string, InputValue>, fields: map<string, Json>, specs: seq<InputSpec>, i: nat)
    requires i < |specs| && IsBound(inputs, fields, specs[..i]) && specs[i].name in fields
    ensures var data := fields[specs[i].name];
            IsBound(inputs[specs[i].name := InputValue(Flat(data), InferredShape(data, |specs[i].shape|))],
                    fields, specs[..i + 1])
  {
    var before, after := specs[..i], specs[..i + 1];
    assert after == before + [specs[i]];
    forall j | 0 <= j < |after| && LastOfItsName(after, j) && after[j].name in fields && j < i
      ensures LastOfItsName(before, j) && after[j].name != specs[i].name
    {
      assert after[i].name != after[j].name;
      forall m | j < m < i ensures before[m].name != before[j].name {
        assert after[m].name != after[j].name;
      }
    }
    assert (set s | s in after :: s.name) == (set s | s in before :: s.name) + {specs[i].name};
    assert after[i].name == specs[i].name;
  }
}
