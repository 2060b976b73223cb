# MCP test client: URI templates, tool arguments and the menu

A model of the interactive core of the MCP test client in `src/client.ts`.
The client connects to an MCP server and lists its tools, resources and
resource templates. It then loops over a menu.

- **Resources**: the user picks a resource or a resource template. For each
  match of `/{([^}]+)}/g` in its URI (`handleResource`), the client asks for a
  value and replaces the match with the value's `encodeURIComponent`. It then
  reads the resulting URI.
- **Tools**: the user picks a tool. The client asks for one value per entry of
  the tool's `inputSchema.properties` (`handleTool`) and calls the tool with
  the answers as a record of strings.

What the user types is modelled as parameters: the option chosen, the value
selected from a list, and the sequence of answers to the prompts. The remote
read or call the client would make is returned as an `Effect`.

Modules:

- `Wrappers`: `Option`.
- `JsString`: `indexOf` and `replace` with a string pattern (first occurrence only).
- `UriEncoding`: `encodeURIComponent` and its partner `decodeURIComponent`.
  These are the Encode and Decode operations of section 19.2.6 of ECMA-262, with
  UTF-8 octets written as `%XX` as in section 2.1 of RFC 3986.
- `UriTemplate`: the regular-expression scan, the specification of the
  resolved URI (`Resolve`), the loop of `handleResource` (`HandleResource`) and
  the properties of resolution.
- `McpTypes`: tools, input schemas, resources, templates, the listing.
- `ToolArguments`: the loop of `handleTool` (`HandleTool`) and its specification `Collected`.
- `Catalog`: the choice lists, the tool label and the lookups.
- `Session`: one pass of the menu loop (`Step`).

## Model

| member | source | states |
|---|---|---|
| UriTemplate.HandleResource | src/client.ts:86-98 | With at least as many answers as matches, the URI read is `Resolve(uri, answers)` and the prompts shown are the names of the matches, in order, one per match. With fewer answers, the prompts stop at the first unanswered one and nothing is read. |
| UriTemplate.Advance | src/client.ts:91-96 | One turn of the loop keeps the invariant. `finalUri.replace(paramMatch, …)` hits exactly the current match. This holds because every `{` in the resolved prefix is immediately followed by `}`, and an encoded value holds no brace at all. |
| UriTemplate.ReplaceStep | src/client.ts:96 | Replacing the match text in (resolved prefix + rest of the template) replaces the leftmost remaining match and nothing earlier. The new prefix still holds no unmatched brace. |
| UriTemplate.NextMatch | src/client.ts:88 | The scan finds the leftmost match at or after a position. No match starts before it, and `None` means no match at all from there. |
| UriTemplate.Scan | src/client.ts:88 | The matches found are matches of the regex, non-overlapping and left to right, each at or after the end of the previous one. |
| UriTemplate.ScanMaximal | src/client.ts:88 | The scan misses no match of `/{([^}]+)}/g`. None starts before the first match found, between the end of one match and the start of the next, or after the last one. |
| UriTemplate.ScanUnique | src/client.ts:88 | The global match sequence is determined: any left-to-right sequence of non-overlapping matches that misses none is the one `Scan` computes. |
| UriTemplate.Placeholders | src/client.ts:88 | `uri.match(…)` yields one match text per prompt (`Count`), and each is a whole match of `{([^}]+)}`. |
| UriTemplate.ParamName | src/client.ts:92 | Each `replace` removes at most one character, so the name is at most two characters shorter than the match. `ParamNameIsInterior` says which two. |
| UriTemplate.CountZeroIffNoPlaceholder | src/client.ts:88-90 | A URI takes no prompt exactly when the regex has no match in it. |
| UriTemplate.NoPlaceholderUnchanged | src/client.ts:87-90 | A URI without a match takes zero prompts and is read unchanged. |
| UriTemplate.ResolvedHasNoPlaceholder | src/client.ts:88-96 | The resolved URI contains no match of `{([^}]+)}`, whatever the answers. |
| UriTemplate.ResolveUsesFirstAnswers | src/client.ts:91-96 | Answers are consumed in match order; answers beyond the number of matches are never used. |
| UriTemplate.OnePlaceholder | src/client.ts:88-96 | `pre{name}post`, with no other `{`, asks once for `name` and reads `pre` + the encoded answer + `post`. |
| UriTemplate.TwoPlaceholders | src/client.ts:88-96 | `pre{n1}mid{n2}post`, with no other `{`, asks for `n1` then `n2` and reads `pre` + enc(a1) + `mid` + enc(a2) + `post`. With `n1 == n2`, a repeated name is asked twice and each occurrence gets its own answer. For example, `users/{userId}/posts/{postId}` with `42`, `7` gives `users/42/posts/7`, since `EncodeUnreserved` shows these answers encode to themselves. |
| UriTemplate.InnerBraceScenario | src/client.ts:88-92 | `{a{b}` is a single match and asks for the name `a{b`. |
| UriTemplate.StrayBracesScenario | src/client.ts:88-96 | In `a/{}/b}` neither `{}` nor the stray `}` is a match: nothing is asked and the URI is read unchanged. |
| UriTemplate.ParamNames | src/client.ts:91-92 | One name per match. |
| UriTemplate.ParamNameIsInterior | src/client.ts:92 | Removing the first `{` and then the first `}` from a match leaves exactly the text between its braces: non-empty and free of `}`. |
| UriTemplate.ParamNamesAreInteriors | src/client.ts:91-92 | The k-th name asked for is the interior of the k-th match. |
| JsString.Replace | src/client.ts:92-96 | Without an occurrence of the pattern, the string is returned as it is. With one, a single occurrence is traded for the replacement. `ReplaceAtFirst` shows it is the first. |
| JsString.IndexFrom | src/client.ts:96 | The first occurrence of the pattern at or after a position, or none at all. |
| JsString.ReplaceAtFirst | src/client.ts:96 | `replace` with a string pattern substitutes the first occurrence only. |
| JsString.ReplaceAbsent | src/client.ts:96 | Without an occurrence, `replace` returns the string unchanged. |
| UriEncoding.EncodeUriComponent | src/client.ts:96 | Every character of the encoded value is unreserved or `%`, so it holds no brace and no `$`. |
| UriEncoding.EncodedShape | src/client.ts:96 | The encoded value is a sequence of unreserved characters and `%XX` triplets with upper-case hex digits. |
| UriEncoding.DecodeEncode | src/client.ts:96 | Percent-decoding the encoded value gives the answer back. |
| UriEncoding.Utf8RoundTrip | src/client.ts:96 | The UTF-8 octets of a code point decode to that code point, and the lead octet announces their number. |
| UriEncoding.EncodeUnreserved | src/client.ts:96 | An answer made only of unreserved characters is substituted as typed. |
| UriEncoding.EncodeSpace | src/client.ts:96 | `a b` is substituted as `a%20b`. |
| ToolArguments.HandleTool | src/client.ts:107-113 | With enough answers, the arguments sent are `Collected(entries, answers)` and the prompts are the keys in order, one per entry. An absent `properties` counts as empty. With too few answers, the prompts stop at the first unanswered one and nothing is sent. |
| ToolArguments.Entries | src/client.ts:109 | `properties ?? {}`: the properties when present. There is no entry exactly when `properties` is absent or empty. |
| ToolArguments.CollectedKeys | src/client.ts:108-113 | The record's keys are exactly the schema's property names. |
| ToolArguments.CollectedValues | src/client.ts:109-112 | Each key holds, verbatim, the answer given at the last entry with that key (later assignments win). A key not in the schema is absent. |
| ToolArguments.CollectedDistinct | src/client.ts:109-112 | With distinct keys, as a JSON object has, the i-th key holds the i-th answer and the record has one key per entry. |
| ToolArguments.NoPropertiesNoPrompt | src/client.ts:108-109 | An absent or empty `properties` gives no prompt and an empty record. |
| ToolArguments.WidgetScenario | src/client.ts:108-113 | Properties `name` and `count` answered `widget` and `5` give `{ name: "widget", count: "5" }`; the number stays a string. |
| Catalog.ResourceChoices | src/client.ts:40-54 | The list offered is the resources and then the templates, in order. Each is labelled with its name and has its `uri` or `uriTemplate` as value. |
| Catalog.ToolChoices | src/client.ts:66-73 | One choice per tool, in order, labelled `ToolLabel` with the tool's name as value. |
| Catalog.ToolLabelSpec | src/client.ts:69 | The label is the title when it is present and non-empty, else the name. |
| Catalog.ToolLabel | src/client.ts:69 | The label is the tool's name or its non-empty title, and it is empty only when the name is. |
| Catalog.LookupResource | src/client.ts:55-57 | A lookup that succeeds yields the selected key itself, whether it was found as a resource's `uri` or as a template's `uriTemplate`. |
| Catalog.FindResource | src/client.ts:56 | The first resource whose `uri` is the key, or none with that `uri`. |
| Catalog.FindTemplate | src/client.ts:57 | The first template whose `uriTemplate` is the key, or none with that `uriTemplate`. |
| Catalog.FindTool | src/client.ts:74 | The first tool with the selected name, or none with that name. |
| Catalog.LookupResourceSpec | src/client.ts:55-58 | The lookup yields a URI exactly when the key is some resource's `uri` or some template's `uriTemplate`, and then it yields the key itself. |
| Catalog.ResourcesFirst | src/client.ts:55-57 | A key that is a resource's `uri` is found among the resources, at or before that resource, whatever the templates hold. |
| Catalog.OfferedResourcesFound | src/client.ts:40-57 | Every value offered in the resource list is found again by the lookup. |
| Catalog.OfferedToolsFound | src/client.ts:66-74 | Every value offered in the tool list is found again by `find`. |
| Session.Step | src/client.ts:32-82 | "Query", "Prompts" or any other option does nothing. "Resources" offers `ResourceChoices`; a miss reports "Resource not found" and reads nothing; otherwise it reads the URI resolved from the answers. "Tools" offers `ToolChoices`; a miss reports "Tool not found" and calls nothing; otherwise it calls the tool with the collected arguments. A value picked from the list offered never misses. |

## Left out

- Building the MCP client and the stdio transport, `connect`, and listing tools, prompts, resources and templates in parallel (src/client.ts:7-29). The listing is the immutable parameter `Listing`.
- The `select` and `input` prompts. They are the parameters `option`, `selection` and `answers`. Only the names asked for are recorded, not the prompt texts. This includes the type shown in the tool prompt (src/client.ts:111), which is display only; `Property.typeLabel` carries it unused.
- An interrupted prompt: its promise rejects and nothing catches it, so the client stops. The model ends the pass with `None`, or `Aborted`, once the answers run out.
- `readResource`, `callTool`, and the JSON parsing and printing of their results (src/client.ts:100-104, 115-120). `Effect` records the call that would be made, not its outcome.
- `select` returning a value that was not offered. In the program, `select` only returns one of the values offered, so the "not found" branches (src/client.ts:58-59, 75-76) cannot be reached through it. `Session.Step` accepts any `selection`, so it models those branches too. Its last two `ensures` show that a value offered never reaches them.
- The endless `while (true)` loop (src/client.ts:32). `Session.Step` is one pass. The console messages other than the two "not found" texts are not modelled.
- `encodeURIComponent` throwing `URIError` on a lone surrogate: a Dafny `char` is a Unicode scalar value, so such input cannot be written.
- The reordering of integer-like keys by `Object.entries`: properties are an ordered sequence of (name, type) pairs.
- The unused `prompts` listing and the unused `describe` import (src/client.ts:5, 26).
- JsString.Replace: the `$&`, `$'` and similar patterns JavaScript expands in a replacement string are not modelled. The precondition excludes `$`. The client's replacements are the empty string (src/client.ts:92) and `encodeURIComponent` results (src/client.ts:96), and neither contains `$`.
- The `users/{userId}/posts/{postId}` example is an instance of `UriTemplate.TwoPlaceholders`, with `UriEncoding.EncodeUnreserved` for `42` and `7`. It is not a separate lemma about that literal string.
