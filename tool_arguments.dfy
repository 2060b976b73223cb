/**
 * Collecting a tool's arguments (`handleTool`): one prompt per entry of the
 * input schema's properties, each answer stored as it was typed under that
 * entry's key.
 */
module ToolArguments {
  import opened Wrappers
  import opened McpTypes

  /** `tool.inputSchema.properties ?? {}`, in order. */
  function Entries(tool: Tool): (props: seq<Property>)
    ensures tool.inputSchema.properties.Some? ==> props == tool.inputSchema.properties.value
    ensures props == [] <==> tool.inputSchema.properties.None? || tool.inputSchema.properties.value == []
  {
    match tool.inputSchema.properties
    case None => []
    case Some(props) => props
  }

  /** The keys asked for, in order. */
  function Keys(props: seq<Property>): (ks: seq<string>)
    ensures |ks| == |props| && forall i :: 0 <= i < |props| ==> ks[i] == props[i].name
  {
    if props == [] then [] else Keys(props[..|props| - 1]) + [props[|props| - 1].name]
  }

  /** The record after `args[key] = answer` for the entries in order. */
  function Collected(props: seq<Property>, answers: seq<string>): map<string, string>
    requires |props| <= |answers|
  {
    if props == [] then map[]
    else Collected(props[..|props| - 1], answers)[props[|props| - 1].name := answers[|props| - 1]]
  }

  /** The position of the last entry named `key`, if any: the one whose
      answer the record keeps. */
  function LastIndexOf(props: seq<Property>, key: string): (r: Option<nat>)
    ensures r.Some? ==> r.value < |props| && props[r.value].name == key &&
                        forall j :: r.value < j < |props| ==> props[j].name != key
    ensures r.None? ==> forall j :: 0 <= j < |props| ==> props[j].name != key
  {
    if props == [] then None
    else if props[|props| - 1].name == key then Some(|props| - 1)
    else LastIndexOf(props[..|props| - 1], key)
  }

  /** No key occurs twice, as for the keys of a JSON object. */
  predicate DistinctKeys(props: seq<Property>) {
    forall i, j :: 0 <= i < j < |props| ==> props[i].name != props[j].name
  }

  /** `handleTool(tool)` up to the call: the keys it asks for and the
      arguments it sends. When the answers run out the prompt is interrupted,
      which aborts the client, and nothing is sent (`None`). */
  method HandleTool(tool: Tool, answers: seq<string>) returns (args: Option<map<string, string>>, asked: seq<string>)
    ensures |answers| >= |Entries(tool)| ==>
              args == Some(Collected(Entries(tool), answers)) && asked == Keys(Entries(tool))
    ensures |answers| < |Entries(tool)| ==>
              args == None && asked == Keys(Entries(tool))[..|answers| + 1]
  {
    var entries := Entries(tool);
    var record: map<string, string> := map[];
    asked := [];
    var i := 0;
    while i < |entries|
      invariant i <= |entries| && i <= |answers|
      invariant record == Collected(entries[..i], answers)
      invariant asked == Keys(entries[..i])
    {
      var key := entries[i].name;
      assert entries[..i + 1][..i] == entries[..i];
      if i >= |answers| {
        asked := asked + [key];
        return None, asked;
      }
      record := record[key := answers[i]];
      asked := asked + [key];
      i := i + 1;
    }
    assert entries[..i] == entries;
    return Some(record), asked;
  }

  /** The record has exactly the schema's keys. */
  lemma {:induction false} CollectedKeys(props: seq<Property>, answers: seq<string>)
    requires |props| <= |answers|
    ensures forall key :: key in Collected(props, answers) <==> key in Keys(props)
  {
    if props != [] {
      CollectedKeys(props[..|props| - 1], answers);
    }
  }

  /** Each key holds, verbatim, the answer given at the last entry with that
      key. */
  lemma {:induction false} CollectedValues(props: seq<Property>, answers: seq<string>, key: string)
    requires |props| <= |answers|
    ensures LastIndexOf(props, key).Some? ==>
              key in Collected(props, answers) && Collected(props, answers)[key] == answers[LastIndexOf(props, key).value]
    ensures LastIndexOf(props, key).None? ==> key !in Collected(props, answers)
  {
    if props != [] {
      CollectedValues(props[..|props| - 1], answers, key);
    }
  }

  /** With distinct keys, as Object.entries yields them, the i-th key holds
      the i-th answer and the record has one key per entry. */
  lemma CollectedDistinct(props: seq<Property>, answers: seq<string>)
    requires |props| <= |answers| && DistinctKeys(props)
    ensures forall i :: 0 <= i < |props| ==> props[i].name in Collected(props, answers)
    ensures forall i :: 0 <= i < |props| ==> Collected(props, answers)[props[i].name] == answers[i]
    ensures |Collected(props, answers)| == |props|
  {
    forall i | 0 <= i < |props|
      ensures props[i].name in Collected(props, answers) && Collected(props, answers)[props[i].name] == answers[i]
    {
      var key := props[i].name;
      CollectedValues(props, answers, key);
      var r := LastIndexOf(props, key);
      assert r.Some?;
      assert r.value == i;
    }
    CollectedSize(props, answers);
  }

  lemma {:induction false} CollectedSize(props: seq<Property>, answers: seq<string>)
    requires |props| <= |answers| && DistinctKeys(props)
    ensures |Collected(props, answers)| == |props|
  {
    if props != [] {
      var init := props[..|props| - 1];
      CollectedSize(init, answers);
      CollectedKeys(init, answers);
      assert props[|props| - 1].name !in Keys(init);
    }
  }

  /** A tool without properties, or with an empty properties object, takes
      no prompt and is called with an empty record. */
  lemma NoPropertiesNoPrompt(tool: Tool, answers: seq<string>)
    requires tool.inputSchema.properties.None? || tool.inputSchema.properties == Some([])
    ensures Keys(Entries(tool)) == [] && Collected(Entries(tool), answers) == map[]
  {
  }

  /** A schema with `name` and `count`, answered `widget` and `5`, gives
      `{ name: "widget", count: "5" }`: the number stays a string. */
  lemma WidgetScenario()
    ensures Collected([Property("name", "string"), Property("count", "number")], ["widget", "5"])
            == map["name" := "widget", "count" := "5"]
  {
    var props := [Property("name", "string"), Property("count", "number")];
    assert props[..1] == [Property("name", "string")];
    assert props[..1][..0] == [];
  }
}
