/**
 * The parts of the MCP listings the client looks at: tools with their input
 * schemas, resources and resource templates. The lists come back from the
 * server once, at start-up, and are never changed afterwards.
 */
module McpTypes {
  import opened Wrappers

  /** One entry of `inputSchema.properties`: the key and the declared type. */
  datatype Property = Property(name: string, typeLabel: string)

  /** A tool's `inputSchema`; `properties` may be absent. */
  datatype InputSchema = InputSchema(properties: Option<seq<Property>>)

  /** A tool's `annotations`; `title` may be absent. */
  datatype Annotations = Annotations(title: Option<string>)

  datatype Tool = Tool(
    name: string,
    description: Option<string>,
    inputSchema: InputSchema,
    annotations: Option<Annotations>)

  datatype Resource = Resource(name: string, uri: string, description: Option<string>)

  datatype ResourceTemplate = ResourceTemplate(name: string, uriTemplate: string, description: Option<string>)

  /** What `listTools`, `listResources` and `listResourceTemplates` returned. */
  datatype Listing = Listing(
    tools: seq<Tool>,
    resources: seq<Resource>,
    templates: seq<ResourceTemplate>)
}
