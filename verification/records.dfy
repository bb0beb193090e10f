/** The record the extractor fills from an API reference document and the
    graph projection consumes (the `self.data` dictionary of
    `ingestion/pdf_parser.py`). Error codes are not part of this model. */
module Records {
  import opened Wrappers
  import opened OrderedMaps

  /** One bullet of an endpoint's parameter list. `modelReference` is the
      name of the model the value must conform to; the key is absent from
      the Python dictionary when this is `None`. */
  datatype Parameter = Parameter(
    name: string,
    typ: string,
    required: bool,
    description: string,
    modelReference: Option<string>)

  /** One bullet of a model's field list: its type is the whole type-info. */
  datatype Field = Field(name: string, typ: string, description: string)

  datatype Endpoint = Endpoint(
    name: string,
    verb: string,
    path: string,
    description: string,
    parameters: seq<Parameter>)

  datatype Model = Model(name: string, fields: seq<Field>)

  /** The fixed header convention plus the extracted rate limit. */
  datatype Authentication = Authentication(header: string, format: string, rateLimit: string)

  /** `authentication` stays `None` (the empty dictionary) when the document
      has no authentication section. `models` is keyed by model name. */
  datatype ApiRecord = ApiRecord(
    baseUrl: string,
    authentication: Option<Authentication>,
    endpoints: seq<Endpoint>,
    models: OMap<string, Model>)
}
