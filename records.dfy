/** The records the scheduler reads from the record store: an id, the
    fields it uses, and the rest of the record. */
module Records {
  import opened Common

  /** A value as the store's JSON decoding hands it to Python. */
  datatype Json =
    | JNull
    | JBool(b: bool)
    | JInt(i: int)
    | JStr(s: string)
    | JList(items: seq<Json>)
    | JObject(members: map<string, Json>)

  /** Python truthiness of such a value. */
  predicate Truthy(v: Json) {
    match v
    case JNull => false
    case JBool(b) => b
    case JInt(i) => i != 0
    case JStr(s) => s != ""
    case JList(items) => items != []
    case JObject(members) => members != map[]
  }

  /** The fields of a record. A field that is absent is None (or JNull);
      `Scheduled?` and `snap post title` are only ever tested for truthiness,
      so they are kept as that truth value. */
  datatype Fields = Fields(
    date: Option<string>,
    time: Option<string>,
    scheduled: bool,
    account: Json,
    title: Option<string>,
    text: Option<string>,
    flair: Option<string>,
    charValue: Option<string>,
    snapValue: Option<string>,
    subreddit: Option<string>,
    media: Json,
    snapPostTitle: bool)

  type RecordId = string

  /** A record as the store returns it: its id, the fields the scheduler
      reads, and everything else it carries (`createdTime` and the other
      columns), which only takes part when a fetched list is compared with
      the previous one. */
  datatype Record = Record(id: RecordId, fields: Fields, others: Json)

  /** The ids of a sequence of records, in order. */
  function Ids(rs: seq<Record>): (ids: seq<RecordId>)
    ensures |ids| == |rs| && forall k :: 0 <= k < |rs| ==> ids[k] == rs[k].id
  {
    if rs == [] then [] else [rs[0].id] + Ids(rs[1..])
  }

  predicate Distinct<T(==)>(xs: seq<T>) {
    forall i, j :: 0 <= i < j < |xs| ==> xs[i] != xs[j]
  }
}
