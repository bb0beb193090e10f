# Nexus-API request pipeline, modelled in Dafny

Nexus-API turns the PDF reference of a logistics API into a Neo4j graph, and then
turns a natural-language request ("ship a parcel to Berlin") into a ready-to-send
HTTP request descriptor. The request is built from the graph and a reply of a
language model. This project models the pure logic of that pipeline and proves
what it promises:

- **Extraction** (`ingestion/pdf_parser.py`, module `Extraction`).
  - The parameter and field bullets, matched against `([a-z_]+)\s*\((.*?)\):\s*(.*)`.
  - The derived `required` flag, the comma-truncated type and the `"Address Object"` model reference.
  - The `Rate Limit:` line and the `Base URL:` search.
  - The assembly of the record from the blocks the section patterns cut out.
- **Projection** (`ingestion/graph_builder.py`, modules `Graphs` and `Projection`).
  - `build_graph` is a pure function from a record and a graph to a graph.
  - The graph is an in-memory labelled property graph: a node's identity is its position, and relationships are kept in creation order.
  - It supports clear-all, `CREATE`, `MATCH` by property and `MERGE` by name.
- **Resolution** (`graph/queries.py`, module `Queries`).
  - `find_endpoint`.
  - `get_endpoint_details`.
  - `get_endpoint_schema`: the rows of its Cypher query, then the Python fold of those rows into a dictionary.
- **Round trip** (module `RoundTrip`): what the queries return on a graph that `build_graph` produced.
- **Fence stripping** (`llm/gemini_client.py`, module `Fences`): the clean-up of the model's reply and the JSON gate of `generate_json`.
- **Call synthesis** (`pipeline/generate_api_call.py`, module `Synthesis`).
  - The rendering of the schema.
  - The prompt.
  - The `{url, method, headers, body}` descriptor.
  - The language model and the JSON parser are function-valued parameters.

Supporting modules:

- `Wrappers`: `Option` and `Result`.
- `Strings`: ASCII whitespace, search, strip, lower-casing, split and join.
- `OrderedMaps`: Python dictionaries as association lists in insertion order.
- `Sequences`: a filter-map with the positions it keeps, and a concat-map.
- `Records`: the extracted record.

## Model

| member | source | states |
|---|---|---|
| Extraction.MatchEntrySound | ingestion/pdf_parser.py:96-100 | every match of the bullet pattern splits the text into a `[a-z_]+` name, whitespace, `(`, a type-info free of `):` and line feeds, `):`, whitespace, and a one-line description that starts with a non-space character and runs to the end of the line |
| Extraction.MatchEntryComplete | ingestion/pdf_parser.py:96-100 | conversely, every text laid out that way matches, with exactly those groups: the lazy type-info group stops at the first `):`, and the greedy name and whitespace runs are maximal |
| Extraction.MatchBullet | ingestion/pdf_parser.py:88-97 | a line yields a match only if it contains both `- ` and `(`; the name is a non-empty run of `[a-z_]`, and the type-info holds no `):` |
| Extraction.MatchBulletLayout | ingestion/pdf_parser.py:88-100 | a candidate line whose stripped text, less a leading `- `, has the bullet layout yields exactly that layout's groups |
| Extraction.ToParameter | ingestion/pdf_parser.py:98-118 | `required` holds exactly when "required" occurs in the lower-cased type-info; the type is the stripped text before the first comma, so it holds no comma; the model reference is `"Address Object"` exactly when that phrase occurs in the type-info or the description, and is absent otherwise |
| Extraction.BeforeComma | ingestion/pdf_parser.py:112 | the result is the longest prefix without a comma: it is followed by a comma or is the whole text |
| Extraction.ParseParameterLine | ingestion/pdf_parser.py:88-120 | a line contributes a parameter exactly when it is a candidate and matches; that parameter is the converted match |
| Extraction.ParseFieldLine | ingestion/pdf_parser.py:129-141 | a line contributes a field exactly when it matches; the field keeps the whole type-info as its type, with no truncation and no required flag |
| Extraction.ExtractParameters | ingestion/pdf_parser.py:83-122 | extraction never fails; it yields at most one parameter per line, each with a well-formed name and a type free of commas |
| Extraction.ExtractParametersByLine | ingestion/pdf_parser.py:86-120 | the parameters are, in line order, exactly the parses of the lines that parse: each comes from a line, the source lines increase, and no parsing line is skipped |
| Extraction.ExtractModelFields | ingestion/pdf_parser.py:124-143 | extraction never fails; it yields at most one field per line, each with a well-formed name and a type free of `):` |
| Extraction.ExtractModelFieldsByLine | ingestion/pdf_parser.py:127-141 | the fields are, in line order, exactly the parses of the lines that parse |
| Extraction.ExtractRateLimit | ingestion/pdf_parser.py:145-148 | "Not specified" when the text has no `Rate Limit:` label; otherwise a value on one line, with no whitespace at either end |
| Extraction.ExtractRateLimitOnLine | ingestion/pdf_parser.py:147-148 | when the rest of the label's line is not blank, the rate limit is that rest, stripped |
| Extraction.UrlPrefixMeans | ingestion/pdf_parser.py:38 | `https?://[^\s]+` matches at the start of a text exactly when the text starts with `http://` or `https://` followed by a non-space character |
| Extraction.ExtractBaseUrl | ingestion/pdf_parser.py:13-40 | the base URL stays "" exactly when no `Base URL:` label is followed, after optional whitespace, by a URL; a URL found starts with a scheme and holds no whitespace |
| Extraction.ExtractBaseUrlLeftmost | ingestion/pdf_parser.py:38-40 | the URL taken is the one after the leftmost label that is followed by a URL |
| Extraction.CollectModels | ingestion/pdf_parser.py:70-75 | a name is a key of the models dictionary exactly when it is the stripped name of some block; the key holds the model of the last block of that name, and every model is stored under its own name |
| Extraction.EndpointOf | ingestion/pdf_parser.py:57-63 | an endpoint keeps the block's four captures stripped, so none has surrounding whitespace, and the parameters extracted from the block's body, which have well-formed names, comma-free types and refer to no model but "Address Object" |
| Extraction.EndpointsOf | ingestion/pdf_parser.py:56-64 | the endpoint loop yields one such endpoint per block, in block order |
| Extraction.ParseContent | ingestion/pdf_parser.py:33-75 | the record has the base URL; it has an authentication section (the fixed header and format, and the rate limit of the span) exactly when the span was found; it has one endpoint per endpoint block, in order, with stripped name and path, well-formed parameters (names of `[a-z_]`, comma-free types, no model but "Address Object") and no surrounding whitespace on its texts; its model keys are exactly the stripped block names, each the last block's model |
| Projection.BuildGraph | ingestion/graph_builder.py:3-17 | a record without an authentication section aborts the projection after the store was cleared, leaving it empty; a record with one completes |
| Projection.BuildGraphIdempotent | ingestion/graph_builder.py:5 | the projection does not depend on the previous graph, so projecting the same record twice gives the graph of projecting it once |
| Projection.BuildGraphNodes | ingestion/graph_builder.py:8-31 | after the projection there is exactly one API node, holding the record's base URL, header and format, and the Endpoint nodes are exactly one per endpoint record, in order, carrying its name, path, method and description |
| Projection.BuildGraphShape | ingestion/graph_builder.py:33-70 | the projected graph is well formed (every relationship joins nodes of the labels its type connects); Model nodes are unique by name and only for referenced models; every HAS_FIELD starts at such a Model node |
| Projection.BuildGraphAttached | ingestion/graph_builder.py:33-55 | every parameter of every endpoint hangs off its endpoint's node by ACCEPTS and, when it names a model, reaches that model's node by IS_TYPE |
| Projection.AddParameterAccepts | ingestion/graph_builder.py:34-55 | every Endpoint node with the parameter's path, that node itself, gets a new Parameter node, beyond the old nodes, with the parameter's name, type and flag, joined to it by an ACCEPTS relationship; when the parameter names a model, that new node gets an IS_TYPE relationship to the model's node |
| Projection.AddParameterAcceptsOnly | ingestion/graph_builder.py:34-55 | every ACCEPTS relationship a parameter adds starts at an Endpoint node with the path and ends at that parameter's node |
| Projection.LinkModelLinks | ingestion/graph_builder.py:49-55 | every Parameter node bearing the referencing parameter's name, from any endpoint, is itself the source of an IS_TYPE relationship to the model's node |
| Projection.LinkModelOnly | ingestion/graph_builder.py:49-55 | linking adds only IS_TYPE relationships from Parameter nodes of that name to the Model node of that name; with no such Parameter node nothing happens, not even the merge |
| Projection.LinkModelModels | ingestion/graph_builder.py:51 | merging a referenced model keeps Model nodes unique by name and limited to referenced names |
| Projection.AddFieldsNoModel | ingestion/graph_builder.py:58-70 | the fields of a model without a Model node are dropped: the graph is unchanged |
| Projection.AddFieldsLinks | ingestion/graph_builder.py:59-70 | every field of a model hangs off every Model node of that name, that node itself being the source of a HAS_FIELD relationship to the field's node |
| Projection.AddModelsLinks | ingestion/graph_builder.py:58-70 | the model loop hangs every field of every model off each Model node of the model's name |
| Projection.BuildGraphFields | ingestion/graph_builder.py:58-70 | every field of a model that some parameter references hangs off that model's node in the projected graph |
| Projection.ProductMembers | ingestion/graph_builder.py:50-52 | the relationships one CREATE makes over matched rows are exactly the pairs of a Parameter row and a Model row |
| Provenance.AddParameterFrom | ingestion/graph_builder.py:33-55 | the relationships a parameter adds record it: each ACCEPTS runs from an Endpoint node with the endpoint's path to a Parameter node of a parameter of that path, typed by its model, and each IS_TYPE from a Parameter node to the Model node some parameter of that name refers to |
| Provenance.AddFieldsFrom | ingestion/graph_builder.py:59-70 | each HAS_FIELD relationship a model's fields add runs from a Model node of the model's name to the node of one of its fields |
| Provenance.BuildGraphFrom | ingestion/graph_builder.py:19-70 | every relationship of a projected graph records an endpoint's parameter, a parameter's model reference or a model's field, and nothing else |
| Queries.FindEndpoint | graph/queries.py:3-8 | the shipments path exactly when the lower-cased intent contains "ship" or "deliver", and none otherwise |
| Queries.KeywordsMean | graph/queries.py:5-6 | the keyword test means "ship", "shipping" or "deliver" occurs |
| Queries.ShippingMentionsShip | graph/queries.py:5 | "shipping" adds nothing to "ship" |
| Queries.FindEndpointIgnoresCase | graph/queries.py:6 | intents that differ only in ASCII letter case resolve alike |
| Queries.GetEndpointDetails | graph/queries.py:11-33 | none exactly when the path is missing, or there is no API node, or no Endpoint node has the path; otherwise the URL is an API node's base URL followed by the path, with the header, format, method and description copied unchanged |
| Queries.EntryOf | graph/queries.py:51-62 | an entry keeps the row's type and flag; it has a model exactly when the collected list is non-empty and its first name is not null, and then the model's name and its fields, keyed by field name |
| Queries.EntryFields | graph/queries.py:59-62 | a field name is a key of an entry's fields exactly when some collected pair carries it, and it maps to the type of the last pair that carries it |
| Queries.SchemaKeys | graph/queries.py:49-64 | the schema has an entry for a name exactly when some row carries it |
| Queries.SchemaLastWins | graph/queries.py:64 | when several rows share a parameter name, the entry is that of the last one |
| Queries.SchemaEntryFrom | graph/queries.py:49-64 | every entry is the entry of some row with that name |
| Queries.GroupKeys | graph/queries.py:38-46 | the aggregated rows are exactly the distinct keys of the rows before aggregation |
| Queries.GroupValue | graph/queries.py:42-46 | `collect` gathers under a key exactly the field pairs of the rows before aggregation with that key |
| Queries.ParamRowTyped | graph/queries.py:40-46 | a Parameter node whose only type is a Model node with fields gives one row per field of that node, and no other |
| Queries.RawRowsFrom | graph/queries.py:39-41 | a row before aggregation comes from a Parameter node reached by ACCEPTS from an Endpoint node with the path, and every such node gives at least one |
| Queries.GetEndpointSchemaNames | graph/queries.py:36-66 | the schema has an entry for a name exactly when a Parameter node of that name hangs off an Endpoint node with the path |
| Queries.GetEndpointSchemaEmpty | graph/queries.py:39-40 | the schema is empty exactly when no Parameter node hangs off an Endpoint node with the path: for an unknown path, or an endpoint with no ACCEPTS relationships |
| Queries.GetEndpointSchemaEntry | graph/queries.py:51-54 | every entry carries the type and required flag stored on a reached Parameter node of that name |
| Queries.SchemaTyped | graph/queries.py:36-66 | when every reached Parameter node of a name has one type and flag, and one Model node with fields as its only type, the entry of that name carries that type and flag, names the model, and its field keys are exactly the names of the model's Field nodes |
| RoundTrip.DetailsAfterBuild | graph/queries.py:11-33 | after a projection with an authentication section, a path has details exactly when some endpoint record has the path; after one without, no path has details |
| RoundTrip.DetailsOfEndpoint | graph/queries.py:26-32 | after a projection, the details of a path are the record's base URL followed by the path, the header convention, and the method and description of the first endpoint with that path |
| RoundTrip.SchemaAfterBuild | graph/queries.py:36-66 | after a projection with an authentication section, every parameter of an endpoint is a key of the schema of its path; after one without, every schema is empty |
| RoundTrip.SchemaKeysAfterBuild | graph/queries.py:36-66 | after a projection, a name is a key of a path's schema exactly when some endpoint with that path has a parameter of that name |
| RoundTrip.SchemaEntrySource | graph/queries.py:49-64 | after a projection, every entry of a path's schema carries the type and flag of a parameter of that name of an endpoint with the path |
| RoundTrip.SchemaTypeAfterBuild | graph/queries.py:49-64 | a parameter's type and required flag come back from its path's schema after a projection, when the parameters of that name on that path agree on them |
| RoundTrip.FieldTargets | ingestion/graph_builder.py:57-70 | after a projection, the names of the Field nodes hanging off a Model node are exactly the field names of the models of its name |
| RoundTrip.SchemaFieldsAfterBuild | graph/queries.py:36-66 | after a projection, the entry of a parameter that names a model with fields carries the parameter's type and flag and the model's name, and its field keys are exactly the names of that model's fields, under the agreement conditions listed under Left out |
| RoundTrip.ParsedModels | ingestion/pdf_parser.py:105-118 | a parsed record refers to no model but "Address Object", so its projection holds Model nodes of that name only |
| RoundTrip.ParsedSchemaFields | graph/queries.py:36-66 | end to end from the parser: a parameter referring to "Address Object" gets back its type, its flag, the model's name and exactly the model's field names from the schema of its path |
| Fences.DropLeading | llm/gemini_client.py:25-26 | a text that does not start with the tag is kept; otherwise it splits into the tag, a run of whitespace, and the result, which does not start with whitespace |
| Fences.DropTrailing | llm/gemini_client.py:27 | a text without a trailing fence (at the end, or before a final line feed) is kept; otherwise the fence and the whole run of whitespace before it are removed |
| Fences.StripFences | llm/gemini_client.py:22-27 | the cleaned reply is a contiguous piece of the reply: only a prefix and a suffix are removed |
| Fences.StripFencesUnchanged | llm/gemini_client.py:22-27 | a reply without surrounding whitespace that neither starts nor ends with a fence is returned unchanged |
| Fences.StripFencesWrapped | llm/gemini_client.py:22-27 | a body wrapped in an opening fence (with or without `json`), whitespace, and a closing fence, all padded with whitespace, comes back as the body |
| Fences.StripFencesExample | llm/gemini_client.py:22-27 | a reply of a fenced JSON object with a `json` tag and line feeds comes back as the bare object |
| Fences.GenerateJson | llm/gemini_client.py:22-35 | the reply succeeds exactly when its cleaned text parses as JSON, and then the value handed on is exactly the cleaned text, a piece of the reply; otherwise the failure carries the cleaned text |
| Synthesis.RenderEntry | pipeline/generate_api_call.py:17-25 | the line of an entry is `- name (`, then `required` exactly when the entry is required and `optional` otherwise, then `): `, then exactly the type; for a model parameter, exactly `object with fields [`, the field texts joined by `, `, and `]` |
| Synthesis.RenderEntryFields | pipeline/generate_api_call.py:21-22 | the line of a model parameter shows every field as `name (type)` |
| Synthesis.RenderSchemaLines | pipeline/generate_api_call.py:16-27 | the rendered schema has exactly one line per entry, in schema order, each opening with its parameter's name |
| Synthesis.BuildPrompt | pipeline/generate_api_call.py:29-46 | the prompt is the fixed text with the rendered schema and the intent embedded verbatim at their places |
| Synthesis.PromptCarries | pipeline/generate_api_call.py:7-46 | the prompt contains the user's request and the schema of the resolved path |
| Synthesis.Assemble | pipeline/generate_api_call.py:48-62 | a reply that does not parse gives a JSON error; a parsed reply without endpoint details fails; otherwise the descriptor takes the URL and method of the details, a single header mapping the auth header to the auth format, and the parsed body |
| Synthesis.GenerateApiCall | pipeline/generate_api_call.py:5-62 | the call fails with a JSON error exactly when the cleaned model reply does not parse, fails as unresolved exactly when it parses but the details are missing, and otherwise returns the parsed reply as the body |
| Synthesis.UnresolvedIntent | pipeline/generate_api_call.py:7-13 | an intent that mentions neither shipping nor delivery is sent with an empty schema and never yields a descriptor |
| Synthesis.GenerateAfterBuild | pipeline/generate_api_call.py:5-62 | end to end: after projecting a record, a shipping intent whose reply parses yields the record's base URL followed by the shipments path, the first such endpoint's method, the single authentication header, and the parsed body |

## Left out

- The PDF reading through pdfplumber and the page concatenation (`ingestion/pdf_parser.py:17-31`), and the module-level path set-up (lines 150-154): a foreign library and file access.
- The block patterns for the authentication span, the endpoint blocks, the model blocks and the error codes (`ingestion/pdf_parser.py:43, 53, 67, 78-81`). Their multi-line lazy backtracking is not modelled. The blocks are inputs to `Extraction.ParseContent`, and error codes are not part of the record.
- The Neo4j driver, sessions and `graph/connect.py`: graph/connect.py is not part of this model. The Cypher engine is replaced by the in-memory graph of `Graphs`.
- Cypher returns rows in an order the engine chooses. The model fixes one: nodes in creation order, relationships in creation order, and aggregated rows in order of first appearance. `.single()` takes the first row, whereas the driver would warn when there are several.
- Cypher's `collect` groups by every non-aggregated column. The model groups by parameter name, type, flag and model name, which is the same grouping.
- The Gemini call, its model name, temperature and MIME type (`llm/gemini_client.py:8-20`). The model is a function parameter `model: string -> string`.
- `json.loads`. It is a function parameter `parse: string -> Option<J>`: its internals and its exception are not modelled. The printed error messages are left out too.
- Unicode: `lower()` and `\s` are modelled over ASCII. Whitespace is `\t`, `\n`, `\v`, `\f`, `\r`, the four separators 28-31 and the space.
- `main.py`: orchestration and printing only.
- `Extraction.ExtractRateLimit`: the value is pinned exactly only when the label's line has a non-blank rest (`Extraction.ExtractRateLimitOnLine`). When that rest is blank, `\s*` crosses the line feed and the value is taken from the next non-blank line. The model computes exactly that, but the contract only says it is one stripped line.
- `Fences.StripFencesWrapped`: the body must not start with a backtick or with `j`. A bare opening fence followed directly by `json...` would otherwise lose that word to the first removal. That case is modelled, but it is not part of this lemma.
- `Fences.DropTrailing`: Python's `$` also matches just before a final line feed. The model handles that case. After `strip()` it cannot arise, so `Fences.StripFences` never meets it.
- `RoundTrip.SchemaTypeAfterBuild`: the type and flag round trip is promised only when the parameters of that name on the endpoints with that path agree on them. Otherwise the schema keeps the row that comes last, and `RoundTrip.SchemaEntrySource` says only that it is one of theirs.
- `RoundTrip.SchemaFieldsAfterBuild`: the field round trip also needs three more conditions. The parameters of that name on the path must agree on the model. Every parameter of that name on any endpoint that names a model must name the same one, because the IS_TYPE statement matches Parameter nodes by name across endpoints (`ingestion/graph_builder.py:50`). And the model must have fields, because a model without fields gives a row whose entry has no model. `RoundTrip.ParsedSchemaFields` discharges the second condition for parsed records, whose only model is "Address Object".
- `Synthesis.UnresolvedIntent`: the source still calls the language model for an unresolved intent and then fails on `endpoint_details["url"]`. The model keeps that order: a JSON error is reported first, and otherwise the call is unresolved.
- `Projection.BuildGraph`: when the record has no authentication section, the source fails with a `KeyError` after the store was cleared. The model returns `MissingAuthentication` holding the empty graph.
- `Synthesis.RenderSchemaLines`: needs a non-empty schema whose names, types and field texts hold no line feed. An empty schema renders as "" (`Synthesis.RenderSchema`), and Python's `"".split("\n")` gives one empty line.
