/**
 * What the checker derives from one mod's release history: the recency order,
 * the latest release, the release matching the installed version, the
 * "outstanding" releases shown in a report and their markers, tag text and
 * the link to the mod's page.
 */
module Releases {
  import opened Wrappers
  import opened ModDb
  import opened Text

  /** Non-increasing creation time, first to last. */
  predicate SortedNewestFirst(s: seq<Release>)
  {
    forall i, j :: 0 <= i < j < |s| ==> s[i].created >= s[j].created
  }

  /** The releases created at exactly time `t`, in their order in `s`. */
  function CreatedAt(s: seq<Release>, t: int): seq<Release>
  {
    if s == [] then []
    else (if s[0].created == t then [s[0]] else []) + CreatedAt(s[1..], t)
  }

  /**
   * Inserts `r` before the first release not newer than it, so that `r`
   * precedes every release created at the same time.
   */
  function InsertByCreated(r: Release, s: seq<Release>): (t: seq<Release>)
    ensures multiset(t) == multiset(s) + multiset{r}
  {
    if s == [] || r.created >= s[0].created then [r] + s
    else
      assert s == [s[0]] + s[1..];
      [s[0]] + InsertByCreated(r, s[1..])
  }

  lemma {:induction false} InsertSorted(r: Release, s: seq<Release>)
    requires SortedNewestFirst(s)
    ensures SortedNewestFirst(InsertByCreated(r, s))
    decreases |s|
  {
    if s != [] && r.created < s[0].created {
      var t' := InsertByCreated(r, s[1..]);
      InsertSorted(r, s[1..]);
      forall x | x in t' ensures x.created <= s[0].created {
        InsertMembers(r, s[1..], x);
      }
      var t := [s[0]] + t';
      forall i, j | 0 <= i < j < |t| ensures t[i].created >= t[j].created {
        if i == 0 {
          assert t[j] in t';
        } else {
          assert t[i] == t'[i - 1] && t[j] == t'[j - 1];
        }
      }
    }
  }

  lemma {:induction false} InsertMembers(r: Release, s: seq<Release>, x: Release)
    requires x in InsertByCreated(r, s)
    ensures x == r || x in s
    decreases |s|
  {
    if s != [] && r.created < s[0].created && x != s[0] {
      InsertMembers(r, s[1..], x);
    }
  }

  /**
   * `OrderByDescending(release => release.Created)`: LINQ's ordering is a
   * stable sort, so releases created at the same time keep their response
   * order (see `SortStable`).
   */
  function SortByCreatedDesc(rs: seq<Release>): (s: seq<Release>)
    ensures multiset(s) == multiset(rs) && |s| == |rs|
    ensures SortedNewestFirst(s)
  {
    if rs == [] then []
    else
      assert rs == [rs[0]] + rs[1..];
      InsertSorted(rs[0], SortByCreatedDesc(rs[1..]));
      InsertByCreated(rs[0], SortByCreatedDesc(rs[1..]))
  }

  lemma {:induction false} InsertStable(r: Release, s: seq<Release>, t: int)
    ensures CreatedAt(InsertByCreated(r, s), t)
         == (if r.created == t then [r] else []) + CreatedAt(s, t)
    decreases |s|
  {
    if s == [] || r.created >= s[0].created {
      assert ([r] + s)[1..] == s;
    } else {
      InsertStable(r, s[1..], t);
      assert ([s[0]] + InsertByCreated(r, s[1..]))[1..] == InsertByCreated(r, s[1..]);
    }
  }

  /**
   * Stability: among releases created at the same time, the sorted order is
   * the response order.  With `SortByCreatedDesc`'s own contract (sorted,
   * and a permutation) this determines the sort completely.
   */
  lemma {:induction false} SortStable(rs: seq<Release>, t: int)
    ensures CreatedAt(SortByCreatedDesc(rs), t) == CreatedAt(rs, t)
    decreases |rs|
  {
    if rs != [] {
      SortStable(rs[1..], t);
      InsertStable(rs[0], SortByCreatedDesc(rs[1..]), t);
    }
  }

  /**
   * The index of the first release, in response order, among those created
   * last.
   */
  function FirstNewestIndex(rs: seq<Release>): (i: nat)
    requires |rs| > 0
    ensures i < |rs|
    ensures forall j :: 0 <= j < |rs| ==> rs[j].created <= rs[i].created
    ensures forall j :: 0 <= j < i ==> rs[j].created < rs[i].created
  {
    if |rs| == 1 then 0
    else
      var k := 1 + FirstNewestIndex(rs[1..]);
      if rs[0].created >= rs[k].created then 0 else k
  }

  /**
   * The latest release: the first one after the recency sort.  It is one of
   * the releases; that none is newer is `LatestIsNewest`.
   */
  function Latest(rs: seq<Release>): (r: Release)
    requires |rs| > 0
    ensures r in rs
  {
    var s := SortByCreatedDesc(rs);
    assert s[0] in multiset(rs);
    s[0]
  }

  /**
   * The release `.OrderByDescending(...).First()` picks is the first release,
   * in response order, among the most recently created ones.
   */
  lemma {:induction false} LatestIsFirstNewest(rs: seq<Release>)
    requires |rs| > 0
    ensures Latest(rs) == rs[FirstNewestIndex(rs)]
    decreases |rs|
  {
    if |rs| > 1 {
      LatestIsFirstNewest(rs[1..]);
    }
  }

  /** No release is newer than the latest one. */
  lemma LatestIsNewest(rs: seq<Release>, r: Release)
    requires r in rs
    ensures Latest(rs).created >= r.created
  {
    assert r in multiset(SortByCreatedDesc(rs));
  }

  /** A release history that exists and is not empty: `Releases!` and
      `.First()` do not throw on it. */
  predicate HasReleases(e: Entry)
  {
    e.releases.Some? && |e.releases.value| > 0
  }

  /**
   * The installed mod is up to date when its version equals the version of
   * the latest release.  A latest release without a version never matches.
   */
  predicate IsUpToDate(m: Mod, e: Entry)
    requires HasReleases(e)
    ensures IsUpToDate(m, e) ==> InstalledRelease(e.releases.value, m.version).Some?
  {
    Latest(e.releases.value).modVersion == Some(m.version)
  }

  /** Index of the first release, in response order, with version `v`. */
  function IndexOfVersion(rs: seq<Release>, v: string): (k: Option<nat>)
    ensures k.Some? ==> k.value < |rs| && rs[k.value].modVersion == Some(v)
    ensures k.Some? ==> forall j :: 0 <= j < k.value ==> rs[j].modVersion != Some(v)
    ensures k.None? ==> forall j :: 0 <= j < |rs| ==> rs[j].modVersion != Some(v)
  {
    if rs == [] then None
    else if rs[0].modVersion == Some(v) then Some(0)
    else
      match IndexOfVersion(rs[1..], v)
      case None => None
      case Some(k) => Some(k + 1)
  }

  /**
   * `Releases.FirstOrDefault(release => release.ModVersion == version)`: the
   * installed release, looked up in RESPONSE order, not recency order.
   */
  function InstalledRelease(rs: seq<Release>, v: string): (r: Option<Release>)
    ensures r.Some? ==> r.value in rs && r.value.modVersion == Some(v)
    ensures r.None? <==> forall j :: 0 <= j < |rs| ==> rs[j].modVersion != Some(v)
  {
    match IndexOfVersion(rs, v)
    case None => None
    case Some(k) => Some(rs[k])
  }

  /**
   * `Releases?.FirstOrDefault(rel => rel.ModVersion == version)?.FileId`:
   * the file of the installed release, when the history, that release and
   * its file id all exist.
   */
  function InstalledFileId(e: Entry, v: string): (id: Option<int>)
    ensures id.Some? ==> e.releases.Some? && InstalledRelease(e.releases.value, v).Some?
    ensures e.releases.Some? && InstalledRelease(e.releases.value, v).Some? ==>
              id == InstalledRelease(e.releases.value, v).value.fileId
  {
    match e.releases
    case None => None
    case Some(rs) =>
      match InstalledRelease(rs, v)
      case None => None
      case Some(r) => r.fileId
  }

  /** `TakeWhile(release => release.created >= t)`: the longest prefix of
      releases created at or after `t`. */
  function TakeWhileCreatedFrom(s: seq<Release>, t: int): (p: seq<Release>)
    ensures p <= s
    ensures forall i :: 0 <= i < |p| ==> p[i].created >= t
    ensures |p| < |s| ==> s[|p|].created < t
  {
    if s == [] || s[0].created < t then []
    else [s[0]] + TakeWhileCreatedFrom(s[1..], t)
  }

  /**
   * The releases a report lists for one mod: the recency-sorted history cut
   * at the first release older than the installed one, or the whole history
   * when the installed version is not in it (the comparison with
   * `oldVer ?? release` is then always true).
   */
  function Outstanding(rs: seq<Release>, installed: Option<Release>): (p: seq<Release>)
    ensures p <= SortByCreatedDesc(rs)
  {
    match installed
    case None => SortByCreatedDesc(rs)
    case Some(o) => TakeWhileCreatedFrom(SortByCreatedDesc(rs), o.created)
  }

  /**
   * The outstanding releases are listed newest first, and with no installed
   * release they are all the releases, each as often as in the response.
   */
  lemma OutstandingShape(rs: seq<Release>, installed: Option<Release>)
    ensures SortedNewestFirst(Outstanding(rs, installed))
    ensures installed.None? ==> multiset(Outstanding(rs, installed)) == multiset(rs)
  {
    var s, p := SortByCreatedDesc(rs), Outstanding(rs, installed);
    forall i, j | 0 <= i < j < |p| ensures p[i].created >= p[j].created {
      assert p[i] == s[i] && p[j] == s[j];
    }
  }

  /**
   * The outstanding list holds exactly the releases created at or after the
   * installed one, newest first.
   */
  lemma OutstandingCreatedFrom(rs: seq<Release>, o: Release, r: Release)
    ensures r in Outstanding(rs, Some(o)) <==> r in rs && r.created >= o.created
  {
    var s := SortByCreatedDesc(rs);
    var p := Outstanding(rs, Some(o));
    assert r in rs <==> r in s by {
      assert r in multiset(rs) <==> r in multiset(s);
    }
  }

  /**
   * When the installed release is in the history, both it and the latest
   * release are in the outstanding list, and the list starts with the latest.
   */
  lemma OutstandingEnds(rs: seq<Release>, o: Release)
    requires o in rs
    ensures var p := Outstanding(rs, Some(o));
      o in p && |p| > 0 && p[0] == Latest(rs)
  {
    OutstandingCreatedFrom(rs, o, o);
    var s := SortByCreatedDesc(rs);
    assert o in multiset(s);
  }

  datatype Marker = InstalledMarker | LatestMarker | IntermediateMarker

  /**
   * The marker of one listed release: the installed version wins over the
   * latest version, which wins over "intermediate".  Versions compare as
   * nullable strings, so a release without a version is marked latest when
   * the latest release has none either.
   */
  function MarkerFor(r: Release, installedVersion: string, latest: Release): (k: Marker)
    ensures k == InstalledMarker <==> r.modVersion == Some(installedVersion)
    ensures k == LatestMarker <==>
              r.modVersion != Some(installedVersion) && r.modVersion == latest.modVersion
    ensures k == IntermediateMarker <==>
              r.modVersion != Some(installedVersion) && r.modVersion != latest.modVersion
  {
    if r.modVersion == Some(installedVersion) then InstalledMarker
    else if r.modVersion == latest.modVersion then LatestMarker
    else IntermediateMarker
  }

  /**
   * The tag text of a release: `"last ... first"` for two or more tags, the
   * only tag for one, nothing for none or a missing tag list.
   */
  function TagText(tags: Option<seq<string>>): (s: string)
    ensures tags.None? || tags.value == [] ==> s == ""
    ensures tags.Some? && |tags.value| == 1 ==> s == tags.value[0]
    ensures tags.Some? && |tags.value| > 1 ==>
              s == tags.value[|tags.value| - 1] + " ... " + tags.value[0]
  {
    (if tags.Some? && |tags.value| > 1 then tags.value[|tags.value| - 1] + " ... " else "")
    + (if tags.Some? && |tags.value| > 0 then tags.value[0] else "")
  }

  const ModDbSite := "https://mods.vintagestory.at/"

  /**
   * The link to a mod's page: by its URL alias when it has one, else by its
   * asset id (a missing asset id prints as nothing).
   */
  function ModLink(e: Entry): (url: string)
    ensures ModDbSite <= url
    ensures e.urlAlias.Some? ==> url[|ModDbSite|..] == e.urlAlias.value
    ensures e.urlAlias.None? ==>
              url[|ModDbSite|..] == "show/mod/" + OptIntToString(e.assetId)
  {
    match e.urlAlias
    case Some(alias) => ModDbSite + alias
    case None => ModDbSite + "show/mod/" + OptIntToString(e.assetId)
  }
}
