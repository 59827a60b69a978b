/**
 * The digest index of `build_site` in scripts/build_site.py. Every `*.json`
 * file of the digests directory is copied to the output, newest name first,
 * and each one that decodes to a usable document adds a `{date, paper_count}`
 * entry to `digests/index.json`.
 *
 * Reading and decoding a file are inputs: a listed file carries the value
 * `json.load` returned for it, or `None` when reading or decoding raised.
 */
module DigestIndex {
  import opened Wrappers
  import opened PyStrings
  import opened Paths

  /** A decoded JSON value as `json.load` returns it; an object is a `dict`. */
  datatype Json =
    | JNull
    | JBool(b: bool)
    | JNumber(literal: string)
    | JString(s: string)
    | JArray(items: seq<Json>)
    | JObject(members: map<string, Json>)

  /** An entry of the digests directory: its name and what decoding it gave. */
  datatype DigestFile = DigestFile(name: string, parsed: Option<Json>)

  /** One element of `index.json`: the `date` value kept as it is, and the paper count. */
  datatype IndexEntry = IndexEntry(date: Json, paperCount: nat)

  /**
   * Python's `len(v)` on a decoded value: the length of a string, list or
   * dict, and a `TypeError` (`None`) for null, booleans and numbers.
   */
  function PyLen(v: Json): (r: Option<nat>)
    ensures r.Some? <==> v.JString? || v.JArray? || v.JObject?
  {
    match v
    case JString(s) => Some(|s|)
    case JArray(items) => Some(|items|)
    case JObject(members) => Some(|members|)
    case _ => None
  }

  /** `d.get(key, default)` on a dict. */
  function Get(members: map<string, Json>, key: string, default: Json): Json {
    if key in members then members[key] else default
  }

  /**
   * The entry the loop body appends for a decoded document `data` of a file
   * with stem `stem`, or `None` when building it raises: `.get` exists only
   * on a dict, and `len` only on a string, list or dict.
   */
  function EntryOf(stem: string, data: Json): Option<IndexEntry> {
    match data
    case JObject(members) =>
      var count := PyLen(Get(members, "papers", JArray([])));
      if count.Some? then Some(IndexEntry(Get(members, "date", JString(stem)), count.value)) else None
    case _ => None
  }

  /**
   * What each shape of document gives: an entry exactly for a dict whose
   * `papers` is absent or has a length; its date is the `date` member or else
   * the stem as a string; its count is 0 without `papers` and the length of
   * `papers` otherwise.
   */
  lemma EntryCases(stem: string, data: Json)
    ensures !data.JObject? ==> EntryOf(stem, data) == None
    ensures data.JObject? ==>
      var m, r := data.members, EntryOf(stem, data);
      && (r.Some? <==> "papers" !in m || PyLen(m["papers"]).Some?)
      && ("papers" !in m ==> r.Some? && r.value.paperCount == 0)
      && ("papers" in m && r.Some? ==> r.value.paperCount == PyLen(m["papers"]).value)
      && ("papers" in m && m["papers"].JArray? ==> r.Some? && r.value.paperCount == |m["papers"].items|)
      && ("papers" in m && (m["papers"].JNull? || m["papers"].JNumber? || m["papers"].JBool?) ==> r == None)
      && (r.Some? ==> r.value.date == (if "date" in m then m["date"] else JString(stem)))
  {
  }

  /** The entry a listed file contributes, if any. */
  function Outcome(f: DigestFile): Option<IndexEntry> {
    match f.parsed
    case None => None
    case Some(data) => EntryOf(Stem(f.name), data)
  }

  /**
   * A digest `d.json` decoded to a dict without `date` and `papers` is
   * indexed under its stem `d`, with no papers.
   */
  lemma StemIsDefaultDate(d: string, m: map<string, Json>)
    requires d != [] && "date" !in m && "papers" !in m
    ensures Outcome(DigestFile(d + ".json", Some(JObject(m)))) == Some(IndexEntry(JString(d), 0))
  {
    StemOfJsonName(d);
  }

  /** `glob("*.json")` over a directory listing, in listing order. */
  function JsonFiles(listing: seq<DigestFile>): (r: seq<DigestFile>)
    ensures forall f :: f in r <==> f in listing && MatchesStar(f.name, ".json")
    ensures forall f :: multiset(r)[f] == if MatchesStar(f.name, ".json") then multiset(listing)[f] else 0
  {
    if listing == [] then []
    else
      var rest := JsonFiles(listing[1..]);
      assert listing == [listing[0]] + listing[1..];
      if MatchesStar(listing[0].name, ".json") then [listing[0]] + rest else rest
  }

  /** Names never increase from one file to the next (`reverse=True` order). */
  predicate Descending(files: seq<DigestFile>) {
    forall i :: 0 <= i < |files| - 1 ==> LessEq(files[i + 1].name, files[i].name)
  }

  /** Descending neighbours give descending pairs at any distance. */
  lemma {:induction false} DescendingPairs(files: seq<DigestFile>, i: nat, j: nat)
    requires Descending(files) && i <= j < |files|
    ensures LessEq(files[j].name, files[i].name)
    decreases j - i
  {
    if i == j {
      LessEqTotal(files[i].name, files[i].name);
    } else {
      DescendingPairs(files, i + 1, j);
      LessEqTransitive(files[j].name, files[i + 1].name, files[i].name);
    }
  }

  /** Puts `f` in front of the first file whose name is not greater than its own. */
  function InsertDescending(f: DigestFile, files: seq<DigestFile>): (r: seq<DigestFile>)
    requires Descending(files)
    ensures Descending(r)
    ensures multiset(r) == multiset(files) + multiset{f}
    ensures r[0] == f || (files != [] && r[0] == files[0])
  {
    if files == [] || LessEq(files[0].name, f.name) then [f] + files
    else
      var rest := InsertDescending(f, files[1..]);
      LessEqTotal(files[0].name, f.name);
      assert files == [files[0]] + files[1..];
      [files[0]] + rest
  }

  /**
   * `sorted(files, reverse=True)` for files of one directory: the same files
   * with names in descending order of code points.
   */
  function SortDescending(files: seq<DigestFile>): (r: seq<DigestFile>)
    ensures Descending(r)
    ensures multiset(r) == multiset(files)
  {
    if files == [] then []
    else
      assert files == [files[0]] + files[1..];
      InsertDescending(files[0], SortDescending(files[1..]))
  }

  /** The files the loop walks: the `*.json` entries, newest name first. */
  function DigestFiles(listing: seq<DigestFile>): (r: seq<DigestFile>)
    ensures Descending(r)
    ensures forall f :: f in r <==> f in listing && MatchesStar(f.name, ".json")
    ensures multiset(r) == multiset(JsonFiles(listing))
  {
    var r := SortDescending(JsonFiles(listing));
    assert forall f :: f in r <==> f in multiset(r);
    r
  }

  /** The index built from `files`, in their order. */
  function Index(files: seq<DigestFile>): (r: seq<IndexEntry>)
    ensures |r| <= |files|
  {
    if files == [] then []
    else
      var last := Outcome(files[|files| - 1]);
      Index(files[..|files| - 1]) + (if last.Some? then [last.value] else [])
  }

  /** Positions in `files` of the files that contribute an entry, in order. */
  function Sources(files: seq<DigestFile>): seq<nat> {
    if files == [] then []
    else
      var n := |files| - 1;
      Sources(files[..n]) + (if Outcome(files[n]).Some? then [n] else [])
  }

  /** Taking one more file adds that file's entry, if it has one, at the end. */
  lemma IndexExtend(files: seq<DigestFile>, i: nat)
    requires i < |files|
    ensures var o := Outcome(files[i]);
      Index(files[..i + 1]) == Index(files[..i]) + (if o.Some? then [o.value] else [])
  {
    assert files[..i + 1][..i] == files[..i];
  }

  /**
   * Entry `k` of the index comes from file `Sources(files)[k]`; the sources
   * increase; and every file with an outcome is a source, so the index has
   * one entry per such file and none for the others.
   */
  lemma {:induction false} IndexSources(files: seq<DigestFile>)
    ensures |Index(files)| == |Sources(files)|
    ensures forall k :: 0 <= k < |Sources(files)| ==>
      Sources(files)[k] < |files| && Outcome(files[Sources(files)[k]]) == Some(Index(files)[k])
    ensures forall k, l :: 0 <= k < l < |Sources(files)| ==> Sources(files)[k] < Sources(files)[l]
    ensures forall p :: 0 <= p < |files| && Outcome(files[p]).Some? ==> p in Sources(files)
  {
    if files != [] {
      var n := |files| - 1;
      var init := files[..n];
      IndexSources(init);
      assert forall p :: 0 <= p < n ==> init[p] == files[p];
    }
  }

  /**
   * Entries appear in descending order of the names of the files they come
   * from: entry `k` precedes entry `l` only when its file's name is not smaller.
   */
  lemma IndexInNameOrder(files: seq<DigestFile>, k: nat, l: nat)
    requires Descending(files) && k < l < |Sources(files)|
    ensures var src := Sources(files);
      src[k] < src[l] < |files| && LessEq(files[src[l]].name, files[src[k]].name)
  {
    IndexSources(files);
    DescendingPairs(files, Sources(files)[k], Sources(files)[l]);
  }

  /**
   * The loop over `files`: each file is copied, then indexed when its
   * document gives an entry. Returns the index and the names copied, in order.
   */
  method IndexFiles(files: seq<DigestFile>) returns (index: seq<IndexEntry>, copied: seq<string>)
    ensures index == Index(files)
    ensures |copied| == |files| && forall k :: 0 <= k < |files| ==> copied[k] == files[k].name
  {
    index, copied := [], [];
    for i := 0 to |files|
      invariant index == Index(files[..i])
      invariant |copied| == i && forall k :: 0 <= k < i ==> copied[k] == files[k].name
    {
      var file := files[i];
      IndexExtend(files, i);
      copied := copied + [file.name];
      match file.parsed {
        case Some(data) =>
          var entry := EntryOf(Stem(file.name), data);
          if entry.Some? {
            index := index + [entry.value];
          }
        case None =>
      }
    }
    assert files[..|files|] == files;
  }

  /**
   * The digest step of `build_site`. `digests` is the directory listing, or
   * `None` when the digests directory does not exist. Returns the index
   * written to `index.json` and the names of the files copied, in copy order.
   */
  method BuildDigestIndex(digests: Option<seq<DigestFile>>) returns (index: seq<IndexEntry>, copied: seq<string>)
    ensures digests.None? ==> index == [] && copied == []
    ensures digests.Some? ==>
      var files := DigestFiles(digests.value);
      && index == Index(files)
      && |copied| == |files|
      && forall k :: 0 <= k < |files| ==> copied[k] == files[k].name
  {
    index, copied := [], [];
    if digests.Some? {
      index, copied := IndexFiles(DigestFiles(digests.value));
    }
  }
}
