/**
 * The catalog (mod DB) records the checker reads, and the installed mods it
 * compares them with.  Only the fields the update checker's decisions look at
 * are kept; display-only fields (author, counters, URLs of homepage, source,
 * issues and wiki) are not part of this model.
 */
module ModDb {
  import opened Wrappers

  /**
   * One published release.  `created` stands for the release's creation time:
   * the source orders releases both by the raw `Created` string and by the
   * instant parsed from it, and this model takes the two orders to agree.
   */
  datatype Release = Release(
    modVersion: Option<string>,
    fileId: Option<int>,
    tags: Option<seq<string>>,
    created: int)

  /** A catalog entry: the fields of the mod record the checker uses. */
  datatype Entry = Entry(
    name: Option<string>,
    urlAlias: Option<string>,
    assetId: Option<int>,
    releases: Option<seq<Release>>)

  /** An installed mod as the host's mod loader reports it. */
  datatype Mod = Mod(id: string, version: string)

  /** A fetched pair: the installed mod and its catalog entry. */
  type Fetched = (Mod, Entry)

  /**
   * The outcome of one catalog lookup.  `parsedMod` is None when the body did
   * not deserialise, deserialised to null, or carried no `mod` object: the
   * checker treats these three alike.  `Faulted` is a lookup whose task
   * threw: `PostAsync` failing on the transport or timing out, or
   * `ReadAsStringAsync` failing on the body.
   */
  datatype Response =
    | Response(isSuccessStatusCode: bool, parsedMod: Option<Entry>)
    | Faulted

  /** The three mods that ship with the game and are never looked up. */
  predicate IsReserved(id: string)
  {
    id == "game" || id == "survival" || id == "creative"
  }

  /** `"{ModID}@{Version}"`, the label a mod is listed under. */
  function Label(m: Mod): string
  {
    m.id + "@" + m.version
  }

  /** Labels of a sequence of mods, in order. */
  function Labels(ms: seq<Mod>): (r: seq<string>)
    ensures |r| == |ms|
    ensures forall i :: 0 <= i < |ms| ==> r[i] == Label(ms[i])
  {
    if ms == [] then [] else [Label(ms[0])] + Labels(ms[1..])
  }

  /** The installed mods of a sequence of fetched pairs. */
  function ModsOf(ps: seq<Fetched>): (r: seq<Mod>)
    ensures |r| == |ps|
    ensures forall i :: 0 <= i < |ps| ==> r[i] == ps[i].0
  {
    if ps == [] then [] else [ps[0].0] + ModsOf(ps[1..])
  }
}
