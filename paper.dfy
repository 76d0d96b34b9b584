/**
  The shared record of the harvesting service (app/models/paper.py): one
  paper with nine fields, and `to_dict`, its serialisation to a dictionary.
 */
module Papers {
  import opened Wrappers

  /** A point in time. Only its `isoformat()` text matters to the core, so that text is what it carries. */
  datatype DateTime = DateTime(iso: string)

  /** The values an `extras` mapping may hold. */
  datatype Scalar = Text(text: string) | Number(number: int) | Flag(flag: bool)

  type Extras = map<string, Scalar>

  /** `title`, `url` and `source` are required; the other six are optional. */
  datatype Paper = Paper(
    title: string,
    url: string,
    doi: Option<string>,
    source: string,
    publishedAt: Option<DateTime>,
    authors: Option<seq<string>>,
    abstractText: Option<string>,
    journal: Option<string>,
    extras: Option<Extras>)

  /** What can sit under a key of the dictionary `to_dict` returns. */
  datatype Value = Null | Str(str: string) | StrList(strs: seq<string>) | Dict(entries: Extras)

  const FieldNames: set<string> :=
    {"title", "url", "doi", "source", "published_at", "authors", "abstract", "journal", "extras"}

  function OptStr(o: Option<string>): Value {
    if o.Some? then Str(o.value) else Null
  }

  /** `to_dict`: a fresh dictionary of the nine fields, with `published_at` as its ISO text or `None`. */
  function ToDict(p: Paper): (d: map<string, Value>)
    ensures d.Keys == FieldNames
    ensures d["published_at"] == if p.publishedAt.Some? then Str(p.publishedAt.value.iso) else Null
  {
    map[
      "title" := Str(p.title),
      "url" := Str(p.url),
      "doi" := OptStr(p.doi),
      "source" := Str(p.source),
      "published_at" := OptStr(if p.publishedAt.Some? then Some(p.publishedAt.value.iso) else None),
      "authors" := (if p.authors.Some? then StrList(p.authors.value) else Null),
      "abstract" := OptStr(p.abstractText),
      "journal" := OptStr(p.journal),
      "extras" := (if p.extras.Some? then Dict(p.extras.value) else Null)]
  }

  lemma NineFields()
    ensures |FieldNames| == 9
  {
  }

  predicate IsOptStr(v: Value) { v.Null? || v.Str? }

  function ToOptStr(v: Value): Option<string> {
    if v.Str? then Some(v.str) else None
  }

  /** Reads a `to_dict` dictionary back into a paper; `None` for any other dictionary. */
  function FromDict(d: map<string, Value>): Option<Paper> {
    if d.Keys == FieldNames
       && d["title"].Str? && d["url"].Str? && d["source"].Str?
       && IsOptStr(d["doi"]) && IsOptStr(d["published_at"]) && IsOptStr(d["abstract"]) && IsOptStr(d["journal"])
       && (d["authors"].Null? || d["authors"].StrList?)
       && (d["extras"].Null? || d["extras"].Dict?)
    then
      Some(Paper(
        d["title"].str,
        d["url"].str,
        ToOptStr(d["doi"]),
        d["source"].str,
        if d["published_at"].Str? then Some(DateTime(d["published_at"].str)) else None,
        if d["authors"].StrList? then Some(d["authors"].strs) else None,
        ToOptStr(d["abstract"]),
        ToOptStr(d["journal"]),
        if d["extras"].Dict? then Some(d["extras"].entries) else None))
    else None
  }

  /** `to_dict` loses nothing: the eight other fields are copied as they are, and the date only changes form. */
  lemma ToDictRoundTrip(p: Paper)
    ensures FromDict(ToDict(p)) == Some(p)
  {
  }

  /** The dictionaries `FromDict` accepts are exactly those `to_dict` produces. */
  lemma FromDictOnlyToDict(d: map<string, Value>, p: Paper)
    requires FromDict(d) == Some(p)
    ensures d == ToDict(p)
  {
  }

  /** What one fetcher call yields: its papers, or an exception that the caller absorbs. */
  datatype FetchOutcome = Returned(papers: seq<Paper>) | Raised

  function Contribution(o: FetchOutcome): seq<Paper> {
    if o.Returned? then o.papers else []
  }
}
