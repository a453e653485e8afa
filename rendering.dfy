/**
 * The parts of a rendered embed that the checker decides: which releases a
 * detail embed lists and with which marker, tag text and link, and how far
 * behind the installed release is; for the mod list, which file the
 * installed version links to.  Colours, emoji and markdown are not modelled.
 */
module Rendering {
  import opened Wrappers
  import opened ModDb
  import opened Releases

  /** One line of a detail embed's description. */
  datatype ReleaseLine = ReleaseLine(
    marker: Marker,
    version: Option<string>,
    fileId: Option<int>,
    created: int,
    tagText: string)

  /**
   * The embed describing one mod that needs an update.  `outOfDateBy` is the
   * time from the installed release to the latest one, shown in the footer
   * when the installed version is in the history.
   */
  datatype DetailEmbed = DetailEmbed(
    title: string,
    link: string,
    lines: seq<ReleaseLine>,
    outOfDateBy: Option<int>)

  /** The embed listing one installed mod. */
  datatype ListEmbed = ListEmbed(
    title: Option<string>,
    link: string,
    installedVersion: string,
    installedFileId: Option<int>)

  function RenderLine(r: Release, installedVersion: string, latest: Release): (l: ReleaseLine)
    ensures l.version == r.modVersion && l.fileId == r.fileId && l.created == r.created
    ensures l.marker == MarkerFor(r, installedVersion, latest) && l.tagText == TagText(r.tags)
  {
    ReleaseLine(MarkerFor(r, installedVersion, latest), r.modVersion, r.fileId, r.created, TagText(r.tags))
  }

  /** The `Aggregate` over the outstanding releases: one line each, in order. */
  function RenderLines(rs: seq<Release>, installedVersion: string, latest: Release): (ls: seq<ReleaseLine>)
    ensures |ls| == |rs|
    ensures forall i :: 0 <= i < |rs| ==> ls[i] == RenderLine(rs[i], installedVersion, latest)
  {
    if rs == [] then []
    else [RenderLine(rs[0], installedVersion, latest)] + RenderLines(rs[1..], installedVersion, latest)
  }

  /**
   * The detail embed for a mod that needs an update.  Its history exists and
   * is not empty: the classification that put the mod on this list already
   * took its latest release.
   */
  function RenderDetail(m: Mod, e: Entry): (d: DetailEmbed)
    requires HasReleases(e)
    ensures d.link == ModLink(e) && d.title == e.name.GetOr("")
    ensures d.outOfDateBy.None? <==>
              forall j :: 0 <= j < |e.releases.value| ==> e.releases.value[j].modVersion != Some(m.version)
    ensures d.outOfDateBy.Some? ==>
              d.outOfDateBy.value
              == Latest(e.releases.value).created - InstalledRelease(e.releases.value, m.version).value.created >= 0
  {
    var rs := e.releases.value;
    var installed := InstalledRelease(rs, m.version);
    var latest := Latest(rs);
    var shown := Outstanding(rs, installed);
    assert installed.Some? ==> latest.created >= installed.value.created by {
      if installed.Some? {
        LatestIsNewest(rs, installed.value);
      }
    }
    DetailEmbed(
      e.name.GetOr(""),
      ModLink(e),
      RenderLines(shown, m.version, latest),
      match installed
      case None => None
      case Some(o) => Some(latest.created - o.created))
  }

  /**
   * The lines of the detail embed are the outstanding releases, rendered
   * against the installed version and the latest release.
   */
  lemma RenderDetailLines(m: Mod, e: Entry)
    requires HasReleases(e)
    ensures var rs := e.releases.value;
      RenderDetail(m, e).lines == RenderLines(Outstanding(rs, InstalledRelease(rs, m.version)), m.version, Latest(rs))
  {
  }

  /**
   * In the embed of a mod that is not up to date, the first line is the
   * latest release, marked as latest; when the installed version is in the
   * history, some line carries the installed marker.
   */
  lemma DetailMarkers(m: Mod, e: Entry)
    requires HasReleases(e) && !IsUpToDate(m, e)
    ensures var d := RenderDetail(m, e);
      && |d.lines| > 0
      && d.lines[0].version == Latest(e.releases.value).modVersion
      && d.lines[0].marker == LatestMarker
      && (d.outOfDateBy.Some? ==>
            exists i :: 0 <= i < |d.lines| && d.lines[i].marker == InstalledMarker)
  {
    var rs := e.releases.value;
    var d := RenderDetail(m, e);
    var installed := InstalledRelease(rs, m.version);
    var shown := Outstanding(rs, installed);
    if installed.None? {
      assert shown == SortByCreatedDesc(rs);
    } else {
      var o := installed.value;
      OutstandingEnds(rs, o);
      var i :| 0 <= i < |shown| && shown[i] == o;
      assert d.lines[i].marker == InstalledMarker;
    }
  }

  /** The embed listing one installed mod, with the file of its installed
      release when the catalog has it. */
  function RenderListEmbed(m: Mod, e: Entry): (l: ListEmbed)
    ensures l.link == ModLink(e) && l.title == e.name && l.installedVersion == m.version
    ensures l.installedFileId == InstalledFileId(e, m.version)
  {
    ListEmbed(e.name, ModLink(e), m.version, InstalledFileId(e, m.version))
  }

  /**
   * Three releases listed out of creation order, the oldest of them
   * installed (for instance 1.1.0, 1.0.0, 1.2.0 created at 200, 100, 300
   * with 1.0.0 installed): the mod needs an update, and its embed lists all
   * three newest first, marked latest, intermediate and installed.
   */
  lemma ThreeReleaseScenario(v: string, r0: Release, r1: Release, r2: Release)
    requires r0.created < r1.created < r2.created
    requires r0.modVersion == Some(v)
    requires r1.modVersion != r0.modVersion && r2.modVersion != r0.modVersion
    requires r1.modVersion != r2.modVersion
    ensures var rs := [r1, r0, r2];
      && Latest(rs) == r2
      && InstalledRelease(rs, v) == Some(r0)
      && Outstanding(rs, Some(r0)) == [r2, r1, r0]
      && MarkerFor(r2, v, r2) == LatestMarker
      && MarkerFor(r1, v, r2) == IntermediateMarker
      && MarkerFor(r0, v, r2) == InstalledMarker
  {
    var rs := [r1, r0, r2];
    assert Latest(rs) == r2 by {
      SortThree(r0, r1, r2);
    }
    assert InstalledRelease(rs, v) == Some(r0) by {
      assert IndexOfVersion(rs, v) == Some(1) by {
        assert rs[1..][1..] == [r2];
      }
    }
    assert Outstanding(rs, Some(r0)) == [r2, r1, r0] by {
      SortThree(r0, r1, r2);
      TakeAllFrom(r0, r1, r2);
    }
  }

  lemma TakeAllFrom(r0: Release, r1: Release, r2: Release)
    requires r0.created < r1.created < r2.created
    ensures TakeWhileCreatedFrom([r2, r1, r0], r0.created) == [r2, r1, r0]
  {
    assert [r2, r1, r0][1..] == [r1, r0];
    assert [r1, r0][1..] == [r0];
    assert [r0][1..] == [];
  }

  lemma SortThree(r0: Release, r1: Release, r2: Release)
    requires r0.created < r1.created < r2.created
    ensures SortByCreatedDesc([r1, r0, r2]) == [r2, r1, r0]
  {
    var one := SortOne(r2);
    var two := SortCons(r0, [r2]);
    InsertPast(r0, [r2]);
    InsertFront(r0, []);
    assert two == [r2, r0];
    var three := SortCons(r1, [r0, r2]);
    InsertPast(r1, [r2, r0]);
    InsertFront(r1, [r0]);
  }

  lemma SortOne(r: Release) returns (s: seq<Release>)
    ensures s == SortByCreatedDesc([r]) == [r]
  {
    assert [r][1..] == [];
    s := [r];
  }

  lemma SortCons(r: Release, rs: seq<Release>) returns (s: seq<Release>)
    ensures s == SortByCreatedDesc([r] + rs) == InsertByCreated(r, SortByCreatedDesc(rs))
  {
    assert ([r] + rs)[1..] == rs;
    s := SortByCreatedDesc([r] + rs);
  }

  lemma InsertFront(r: Release, s: seq<Release>)
    requires s == [] || r.created >= s[0].created
    ensures InsertByCreated(r, s) == [r] + s
  {
  }

  lemma InsertPast(r: Release, s: seq<Release>)
    requires s != [] && r.created < s[0].created
    ensures InsertByCreated(r, s) == [s[0]] + InsertByCreated(r, s[1..])
  {
  }
}
