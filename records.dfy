/** The change record of upgrade_analysis_parser/models.py, the row of the
    `changes` table that stores it, and the JSON values held in its `details`. */
module Records {
  import opened Wrappers

  /** A decoded JSON value. Numbers are integers: only their truthiness is ever
      inspected. */
  datatype Json =
    | JNull
    | JBool(b: bool)
    | JNum(n: int)
    | JString(s: string)
    | JArray(items: seq<Json>)
    | JObject(fields: map<string, Json>)

  /** Python truthiness of a decoded value (`if not info: ...`). */
  predicate Truthy(v: Json)
  {
    match v
    case JNull => false
    case JBool(b) => b
    case JNum(n) => n != 0
    case JString(s) => s != ""
    case JArray(items) => items != []
    case JObject(fields) => fields != map[]
  }

  /** The free-form `details_json` mapping of a record. */
  type Details = map<string, Json>

  const ModelCategory := "MODEL"
  const FieldCategory := "FIELD"
  const XmlRecordCategory := "XML_RECORD"

  datatype ChangeRecord = ChangeRecord(
    version: string,
    moduleName: string,
    changeCategory: string,
    changeType: string,
    rawLine: string,
    modelName: Option<string>,
    fieldName: Option<string>,
    recordModel: Option<string>,
    xmlId: Option<string>,
    description: Option<string>,
    details: Details)

  /** The text stored in a `details_json` column, seen through `json.loads`: it
      either decodes to a value or it does not (a NULL or empty column reads
      like undecodable text everywhere it is consumed). */
  datatype JsonText = Decodes(value: Json) | Undecodable

  /** `json.loads`, with a decoding failure as `None`. */
  function Deserialize(t: JsonText): Option<Json>
  {
    match t
    case Decodes(v) => Some(v)
    case Undecodable => None
  }

  /** `json.dumps` of a details mapping. */
  function Serialize(d: Details): (t: JsonText)
    ensures Deserialize(t) == Some(JObject(d))
  {
    Decodes(JObject(d))
  }

  /** One row of the `changes` table. `id` is the autoincrement key. */
  datatype Row = Row(
    id: nat,
    version: string,
    moduleName: string,
    changeCategory: string,
    changeType: string,
    modelName: Option<string>,
    fieldName: Option<string>,
    recordModel: Option<string>,
    xmlId: Option<string>,
    description: Option<string>,
    rawLine: string,
    detailsJson: JsonText)

  /** The row `insert_data` writes for a record under the given id. */
  function ToRow(id: nat, c: ChangeRecord): Row
  {
    Row(id, c.version, c.moduleName, c.changeCategory, c.changeType, c.modelName, c.fieldName,
        c.recordModel, c.xmlId, c.description, c.rawLine, Serialize(c.details))
  }

  /** `ChangeRecord.model_validate` of a row whose `details_json` was decoded:
      it fails unless the column decodes to a JSON object. */
  function FromRow(r: Row): (c: Option<ChangeRecord>)
    ensures c.Some? <==> Deserialize(r.detailsJson).Some? && Deserialize(r.detailsJson).value.JObject?
    ensures c.Some? ==> c.value.version == r.version && c.value.moduleName == r.moduleName
                        && c.value.rawLine == r.rawLine
  {
    match r.detailsJson
    case Decodes(JObject(d)) =>
      Some(ChangeRecord(r.version, r.moduleName, r.changeCategory, r.changeType, r.rawLine, r.modelName,
                        r.fieldName, r.recordModel, r.xmlId, r.description, d))
    case _ => None
  }

  /** Storing a record and validating the row back gives the record again. */
  lemma RowRoundTrip(id: nat, c: ChangeRecord)
    ensures FromRow(ToRow(id, c)) == Some(c)
  {
  }
}
