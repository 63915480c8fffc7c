/**
 * The raw documents of an ESGF search response and the flat records the
 * paginated query client makes of them
 * (subdaily_data_for_RCMs/cmip6-variable-search.py, line 47).
 *
 * A JSON value of a document is either a scalar (kept as its text) or a
 * list of scalars. Flattening drops the `score` field and replaces every
 * list by its first element; indexing an empty list raises IndexError in
 * the script, which is an error outcome here.
 */
module Records {
  import opened Wrappers

  datatype Value = Scalar(text: string) | List(items: seq<string>)

  /** One raw result document, field name to JSON value. */
  type Doc = map<string, Value>

  /** One flattened record, field name to scalar text. */
  type Record = map<string, string>

  /** The exceptions that can end the stream of records. */
  datatype StreamError = HttpError(status: nat) | IndexError

  const Score: string := "score"

  /** A field whose value `v[0]` would fail on. */
  predicate EmptyListAt(d: Doc, k: string)
    requires k in d
  {
    k != Score && d[k] == List([])
  }

  /** The value a kept field takes: the first element of a list, a scalar unchanged. */
  function Unwrap(v: Value): string
    requires v != List([])
  {
    match v
    case Scalar(t) => t
    case List(items) => items[0]
  }

  /** `{k: v[0] if isinstance(v, list) else v for k, v in d.items() if k != 'score'}` */
  function FlattenDoc(d: Doc): (r: Result<Record, StreamError>)
    ensures r.Failure? ==> r.error == IndexError
    ensures r.Success? ==> Score !in r.value
  {
    if exists k :: k in d && EmptyListAt(d, k) then Failure(IndexError)
    else Success(map k | k in d && k != Score :: Unwrap(d[k]))
  }

  /**
   * Flattening fails, with IndexError, exactly when a kept field holds an
   * empty list; otherwise it keeps every field but `score`, takes the first
   * element of every list (whatever its length) and leaves scalars alone.
   */
  lemma FlattenDocSpec(d: Doc)
    ensures FlattenDoc(d).Failure? <==> exists k :: k in d && EmptyListAt(d, k)
    ensures FlattenDoc(d).Failure? ==> FlattenDoc(d).error == IndexError
    ensures FlattenDoc(d).Success? ==> FlattenDoc(d).value.Keys == d.Keys - {Score}
    ensures FlattenDoc(d).Success? ==> forall k :: k in FlattenDoc(d).value ==>
      (d[k].Scalar? ==> FlattenDoc(d).value[k] == d[k].text) &&
      (d[k].List? ==> |d[k].items| > 0 && FlattenDoc(d).value[k] == d[k].items[0])
  {
  }

  /** A record seen again as a document whose every field is a one-element list. */
  function AsSingletonLists(rec: Record): (d: Doc)
  {
    map k | k in rec :: List([rec[k]])
  }

  /** A record seen again as a document of scalars. */
  function AsScalars(rec: Record): (d: Doc)
  {
    map k | k in rec :: Scalar(rec[k])
  }

  /** Wrapping every field of a record in a one-element list and flattening gives the record back. */
  lemma FlattenUnwrapsSingletons(rec: Record)
    requires Score !in rec
    ensures FlattenDoc(AsSingletonLists(rec)) == Success(rec)
  {
    var d := AsSingletonLists(rec);
    FlattenDocSpec(d);
    assert forall k :: k in d ==> !EmptyListAt(d, k);
    var r := FlattenDoc(d).value;
    assert r.Keys == rec.Keys;
    assert forall k :: k in r ==> r[k] == rec[k];
    assert r == rec;
    assert FlattenDoc(d).Success?;
  }

  /** Flattening is idempotent: a flattened record flattens to itself. */
  lemma FlattenIdempotent(d: Doc, rec: Record)
    requires FlattenDoc(d) == Success(rec)
    ensures FlattenDoc(AsScalars(rec)) == Success(rec)
  {
    FlattenDocSpec(d);
    var s := AsScalars(rec);
    FlattenDocSpec(s);
    assert forall k :: k in s ==> !EmptyListAt(s, k);
    var r := FlattenDoc(s).value;
    assert r.Keys == rec.Keys - {Score} == rec.Keys;
    assert forall k :: k in r ==> r[k] == rec[k];
    assert r == rec;
    assert FlattenDoc(s).Success?;
  }

  /**
   * The records the inner `for d in docs` loop yields for one page: the
   * flattened documents in order, up to the first one that raises.
   */
  function {:induction false} FlattenPage(docs: seq<Doc>): (r: (seq<Record>, Option<StreamError>))
    ensures |r.0| <= |docs|
    ensures forall j :: 0 <= j < |r.0| ==> FlattenDoc(docs[j]) == Success(r.0[j])
    ensures r.1.None? ==> |r.0| == |docs|
    ensures r.1.Some? ==> |r.0| < |docs| && FlattenDoc(docs[|r.0|]) == Failure(r.1.value)
    ensures r.1.Some? ==> r.1.value == IndexError
    ensures r.1.None? <==> forall j :: 0 <= j < |docs| ==> FlattenDoc(docs[j]).Success?
  {
    if docs == [] then ([], None)
    else
      match FlattenDoc(docs[0])
      case Failure(e) => FlattenDocSpec(docs[0]); ([], Some(e))
      case Success(rec) =>
        var rest := FlattenPage(docs[1..]);
        ([rec] + rest.0, rest.1)
  }

  /** The flattened form of documents that all flatten. */
  function FlattenAll(docs: seq<Doc>): (recs: seq<Record>)
    requires forall j :: 0 <= j < |docs| ==> FlattenDoc(docs[j]).Success?
    ensures |recs| == |docs|
    ensures forall j :: 0 <= j < |docs| ==> FlattenDoc(docs[j]) == Success(recs[j])
  {
    seq(|docs|, j requires 0 <= j < |docs| => FlattenDoc(docs[j]).value)
  }

  /** A page whose documents all flatten yields all of them, in order, and no error. */
  lemma FlattenPageComplete(docs: seq<Doc>)
    requires forall j :: 0 <= j < |docs| ==> FlattenDoc(docs[j]).Success?
    ensures FlattenPage(docs) == (FlattenAll(docs), None)
  {
    var r := FlattenPage(docs);
    assert r.0 == FlattenAll(docs);
  }

  /** A page stops at its first document with an empty list, and yields exactly the ones before it. */
  lemma FlattenPageStopsAtFirstFailure(docs: seq<Doc>, i: nat)
    requires i < |docs|
    requires forall j :: 0 <= j < i ==> FlattenDoc(docs[j]).Success?
    requires FlattenDoc(docs[i]).Failure?
    ensures FlattenPage(docs).1 == Some(IndexError)
    ensures FlattenPage(docs).0 == FlattenAll(docs[..i])
  {
    var r := FlattenPage(docs);
    assert |r.0| == i;
    assert r.0 == FlattenAll(docs[..i]);
  }
}
