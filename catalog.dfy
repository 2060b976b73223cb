/**
 * The choice lists `main` offers and the lookups that turn the selected value
 * back into a resource URI or a tool.
 */
module Catalog {
  import opened Wrappers
  import opened McpTypes

  /** One entry of a `select` list: the label shown, the value returned. */
  datatype Choice = Choice(name: string, value: string, description: Option<string>)

  /** The resources, then the resource templates, each offered under its
      name with its URI (template) as the value. */
  function ResourceChoices(resources: seq<Resource>, templates: seq<ResourceTemplate>): (cs: seq<Choice>)
    ensures |cs| == |resources| + |templates|
    ensures forall i :: 0 <= i < |resources| ==> cs[i].value == resources[i].uri && cs[i].name == resources[i].name
    ensures forall j :: 0 <= j < |templates| ==>
              cs[|resources| + j].value == templates[j].uriTemplate && cs[|resources| + j].name == templates[j].name
  {
    seq(|resources|, i requires 0 <= i < |resources| =>
          Choice(resources[i].name, resources[i].uri, resources[i].description)) +
    seq(|templates|, j requires 0 <= j < |templates| =>
          Choice(templates[j].name, templates[j].uriTemplate, templates[j].description))
  }

  /** `tool.annotations?.title || tool.name`: an absent or empty title falls
      back to the name. */
  function ToolLabel(tool: Tool): (shown: string)
    ensures shown == tool.name || (HasTitle(tool) && shown == tool.annotations.value.title.value)
    ensures shown == "" ==> tool.name == ""
  {
    match tool.annotations
    case Some(Annotations(Some(title))) => if title != "" then title else tool.name
    case _ => tool.name
  }

  /** The tool has a title that JavaScript treats as true: present and
      not empty. */
  predicate HasTitle(tool: Tool) {
    tool.annotations.Some? && tool.annotations.value.title.Some? && tool.annotations.value.title.value != ""
  }

  /** The tools, each offered under its label with its name as the value. */
  function ToolChoices(tools: seq<Tool>): (cs: seq<Choice>)
    ensures |cs| == |tools|
    ensures forall i :: 0 <= i < |tools| ==> cs[i].value == tools[i].name && cs[i].name == ToolLabel(tools[i])
  {
    seq(|tools|, i requires 0 <= i < |tools| => Choice(ToolLabel(tools[i]), tools[i].name, tools[i].description))
  }

  /** `resources.find(r => r.uri === key)`. */
  function FindResource(resources: seq<Resource>, key: string): (r: Option<nat>)
    ensures r.Some? ==> r.value < |resources| && resources[r.value].uri == key &&
                        forall k :: 0 <= k < r.value ==> resources[k].uri != key
    ensures r.None? ==> forall k :: 0 <= k < |resources| ==> resources[k].uri != key
  {
    if resources == [] then None
    else if resources[0].uri == key then Some(0)
    else match FindResource(resources[1..], key)
      case None => None
      case Some(k) => Some(k + 1)
  }

  /** `resourceTemplates.find(t => t.uriTemplate === key)`. */
  function FindTemplate(templates: seq<ResourceTemplate>, key: string): (r: Option<nat>)
    ensures r.Some? ==> r.value < |templates| && templates[r.value].uriTemplate == key &&
                        forall k :: 0 <= k < r.value ==> templates[k].uriTemplate != key
    ensures r.None? ==> forall k :: 0 <= k < |templates| ==> templates[k].uriTemplate != key
  {
    if templates == [] then None
    else if templates[0].uriTemplate == key then Some(0)
    else match FindTemplate(templates[1..], key)
      case None => None
      case Some(k) => Some(k + 1)
  }

  /** `tools.find(t => t.name === key)`. */
  function FindTool(tools: seq<Tool>, key: string): (r: Option<Tool>)
    ensures r.Some? ==> r.value.name == key &&
                        exists i :: 0 <= i < |tools| && tools[i] == r.value &&
                                    forall k :: 0 <= k < i ==> tools[k].name != key
    ensures r.None? ==> forall k :: 0 <= k < |tools| ==> tools[k].name != key
  {
    if tools == [] then None
    else if tools[0].name == key then Some(tools[0])
    else
      var r := FindTool(tools[1..], key);
      if r.Some? then
        var i :| 0 <= i < |tools[1..]| && tools[1..][i] == r.value &&
                 forall k :: 0 <= k < i ==> tools[1..][k].name != key;
        assert tools[i + 1] == r.value;
        r
      else r
  }

  /** `resources.find(...)?.uri ?? resourceTemplates.find(...)?.uriTemplate`. */
  function LookupResource(listing: Listing, key: string): (r: Option<string>)
    ensures r.Some? ==> r.value == key
  {
    match FindResource(listing.resources, key)
    case Some(i) => Some(listing.resources[i].uri)
    case None =>
      match FindTemplate(listing.templates, key)
      case Some(j) => Some(listing.templates[j].uriTemplate)
      case None => None
  }

  /** The lookup yields the selected key itself exactly when some resource
      has it as its URI or some template as its URI template. */
  lemma LookupResourceSpec(listing: Listing, key: string)
    ensures LookupResource(listing, key).Some? <==>
              (exists i :: 0 <= i < |listing.resources| && listing.resources[i].uri == key) ||
              (exists j :: 0 <= j < |listing.templates| && listing.templates[j].uriTemplate == key)
    ensures LookupResource(listing, key).Some? ==> LookupResource(listing, key).value == key
  {
    var r := FindResource(listing.resources, key);
    if r.None? {
      var t := FindTemplate(listing.templates, key);
      if t.Some? {
        assert listing.templates[t.value].uriTemplate == key;
      }
    } else {
      assert listing.resources[r.value].uri == key;
    }
  }

  /** Resources are searched before templates: a key that is a resource's
      URI is found among the resources whatever the templates hold. */
  lemma ResourcesFirst(listing: Listing, key: string, i: nat)
    requires i < |listing.resources| && listing.resources[i].uri == key
    ensures FindResource(listing.resources, key).Some? && FindResource(listing.resources, key).value <= i
    ensures LookupResource(listing, key) == Some(key)
  {
  }

  /** Every value offered in the resource list is found again. */
  lemma OfferedResourcesFound(listing: Listing)
    ensures forall c :: c in ResourceChoices(listing.resources, listing.templates) ==>
              LookupResource(listing, c.value) == Some(c.value)
  {
    var cs := ResourceChoices(listing.resources, listing.templates);
    forall c | c in cs
      ensures LookupResource(listing, c.value) == Some(c.value)
    {
      var k :| 0 <= k < |cs| && cs[k] == c;
      LookupResourceSpec(listing, c.value);
      if k < |listing.resources| {
        assert listing.resources[k].uri == c.value;
      } else {
        assert listing.templates[k - |listing.resources|].uriTemplate == c.value;
      }
    }
  }

  /** Every value offered in the tool list is found again, as the first tool
      of that name. */
  lemma OfferedToolsFound(tools: seq<Tool>)
    ensures forall c :: c in ToolChoices(tools) ==> FindTool(tools, c.value).Some?
  {
    var cs := ToolChoices(tools);
    forall c | c in cs
      ensures FindTool(tools, c.value).Some?
    {
      var k :| 0 <= k < |cs| && cs[k] == c;
      assert tools[k].name == c.value;
    }
  }

  /** The label is the title when there is a non-empty one, else the name. */
  lemma ToolLabelSpec(tool: Tool)
    ensures HasTitle(tool) ==> ToolLabel(tool) == tool.annotations.value.title.value
    ensures !HasTitle(tool) ==> ToolLabel(tool) == tool.name
  {
  }
}
