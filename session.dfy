/**
 * One pass of the client's menu loop (`main`): the user picks an option, then
 * a resource or a tool from the list offered, answers the prompts, and the
 * client reads the resource or calls the tool.
 */
module Session {
  import opened Wrappers
  import opened McpTypes
  import opened Catalog
  import opened UriTemplate
  import opened ToolArguments

  /** What one pass of the loop leads to. */
  datatype Effect =
    | Idle                                                  // back to the menu
    | NotFound(message: string)                             // reported, nothing else done
    | ReadResource(uri: string)                             // `mcp.readResource({ uri })`
    | CallTool(name: string, arguments: map<string, string>) // `mcp.callTool({ name, arguments })`
    | Aborted                                               // a prompt was interrupted

  /** The loop body for the chosen `option` and the value `selection` picked
      from the list `offered`; `asked` are the prompts shown after that. */
  method Step(listing: Listing, option: string, selection: string, answers: seq<string>)
    returns (offered: seq<Choice>, effect: Effect, asked: seq<string>)
    ensures option != "Resources" && option != "Tools" ==> offered == [] && effect == Idle && asked == []
    ensures option == "Resources" ==> offered == ResourceChoices(listing.resources, listing.templates)
    ensures option == "Tools" ==> offered == ToolChoices(listing.tools)
    // Resources
    ensures option == "Resources" && LookupResource(listing, selection).None? ==>
              effect == NotFound("Resource not found") && asked == []
    ensures option == "Resources" && LookupResource(listing, selection).Some? && |answers| >= Count(selection) ==>
              effect == ReadResource(Resolve(selection, answers)) && asked == ParamNames(selection)
    ensures option == "Resources" && LookupResource(listing, selection).Some? && |answers| < Count(selection) ==>
              effect == Aborted && asked == ParamNames(selection)[..|answers| + 1]
    ensures option == "Resources" && (exists c :: c in offered && c.value == selection) ==> !effect.NotFound?
    // Tools
    ensures option == "Tools" && FindTool(listing.tools, selection).None? ==>
              effect == NotFound("Tool not found") && asked == []
    ensures option == "Tools" && FindTool(listing.tools, selection).Some? ==>
              var tool := FindTool(listing.tools, selection).value;
              (|answers| >= |Entries(tool)| ==>
                 effect == CallTool(selection, Collected(Entries(tool), answers)) && asked == Keys(Entries(tool))) &&
              (|answers| < |Entries(tool)| ==>
                 effect == Aborted && asked == Keys(Entries(tool))[..|answers| + 1])
    ensures option == "Tools" && (exists c :: c in offered && c.value == selection) ==> !effect.NotFound?
  {
    offered, effect, asked := [], Idle, [];
    if option == "Resources" {
      offered := ResourceChoices(listing.resources, listing.templates);
      OfferedResourcesFound(listing);
      var uri := LookupResource(listing, selection);
      if uri == None {
        return offered, NotFound("Resource not found"), [];
      }
      LookupResourceSpec(listing, selection);
      var finalUri;
      finalUri, asked := HandleResource(uri.value, answers);
      effect := if finalUri.Some? then ReadResource(finalUri.value) else Aborted;
    } else if option == "Tools" {
      offered := ToolChoices(listing.tools);
      OfferedToolsFound(listing.tools);
      var tool := FindTool(listing.tools, selection);
      if tool == None {
        return offered, NotFound("Tool not found"), [];
      }
      var args;
      args, asked := HandleTool(tool.value, answers);
      effect := if args.Some? then CallTool(tool.value.name, args.value) else Aborted;
    }
  }
}
