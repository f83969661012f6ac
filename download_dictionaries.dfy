/**
  The dictionaries the index-building script saves: lightcurve file name to
  download URL, and cutout source identifier to download URL, the latter
  merged over the cutout folders in the order their listings complete.
  Every listing is given as the already-decoded `file` array of the DAP
  `files.json` response.
 */
module DownloadDictionaries {
  import opened Wrappers
  import opened PyStr
  import opened PyDict

  /** The collections endpoint of version 2 of the DAP web service, where every download URL starts. */
  const DOWNLOAD_BASE: string := "https://data.csiro.au/dap/ws/v2/collections/"

  // ---------------------------------------------------------------------------
  // Keys and URLs

  /** `filename.split('/')[-1]`: the text after the last `/`. */
  function LastSegment(filename: string): (segment: string)
    ensures '/' !in segment
    ensures AfterLast(filename, '/', segment)
  {
    SplitLast(filename, '/');
    LastOf(Split(filename, '/'))
  }

  /** `filename.split('/')[-1].split('_')[0]`: the source identifier of a cutout file. */
  function CutoutKey(filename: string): (key: string)
    ensures '/' !in key && '_' !in key
    ensures StartsWith(LastSegment(filename), key)
    ensures key == LastSegment(filename) || LastSegment(filename)[|key|] == '_'
  {
    var segment := LastSegment(filename);
    SplitFirst(segment, '_');
    var key := Split(segment, '_')[0];
    assert key == segment[..|key|];
    key
  }

  /** The download URL of a lightcurve, from its PID and bare file name. */
  function LightcurveUrl(pid: string, file: string): string
  {
    DOWNLOAD_BASE + pid + "/downloadfile?fileName=%2Flightcurves%2F" + file
  }

  /** The download URL of a cutout, from its PID and the file name exactly as listed (not URL-encoded). */
  function CutoutUrl(pid: string, filename: string): string
  {
    DOWNLOAD_BASE + pid + "/downloadfile?fileName=" + filename
  }

  // ---------------------------------------------------------------------------
  // create_lightcurves_dict

  /** The assignments `filename_url[file] = url` in listing order. */
  function LightcurvePairs(pid: string, filenames: seq<string>): seq<(string, string)>
  {
    seq(|filenames|, i requires 0 <= i < |filenames| =>
      (LastSegment(filenames[i]), LightcurveUrl(pid, LastSegment(filenames[i]))))
  }

  /** The loop of `create_lightcurves_dict` over the listed file names. */
  method CreateLightcurvesDict(pid: string, filenames: seq<string>) returns (filenameUrl: map<string, string>)
    ensures filenameUrl == Assign(LightcurvePairs(pid, filenames))
  {
    ghost var pairs := LightcurvePairs(pid, filenames);
    filenameUrl := map[];
    for n := 0 to |filenames|
      invariant filenameUrl == Assign(pairs[..n])
    {
      var file := LastSegment(filenames[n]);
      var url := LightcurveUrl(pid, file);
      AssignPrefix(pairs, n);
      filenameUrl := filenameUrl[file := url];
    }
    assert pairs[..|filenames|] == pairs;
  }

  /** The keys are the last segments of the listed file names. */
  lemma LightcurveKeys(pid: string, filenames: seq<string>, file: string)
    ensures file in Assign(LightcurvePairs(pid, filenames)) <==>
      exists i :: 0 <= i < |filenames| && LastSegment(filenames[i]) == file
  {
    var pairs := LightcurvePairs(pid, filenames);
    AssignDomain(pairs, file);
    assert forall i :: 0 <= i < |filenames| ==> pairs[i].0 == LastSegment(filenames[i]);
  }

  /** Each key has no `/`, and its URL is determined by the key alone. */
  lemma LightcurveValues(pid: string, filenames: seq<string>, file: string)
    requires file in Assign(LightcurvePairs(pid, filenames))
    ensures '/' !in file
    ensures Assign(LightcurvePairs(pid, filenames))[file] == LightcurveUrl(pid, file)
  {
    var pairs := LightcurvePairs(pid, filenames);
    AssignValueOrigin(pairs, file);
    var i :| LastAssignment(pairs, i, file) && pairs[i].1 == Assign(pairs)[file];
    assert pairs[i] == (LastSegment(filenames[i]), LightcurveUrl(pid, LastSegment(filenames[i])));
  }

  // ---------------------------------------------------------------------------
  // create_cutout_dict

  /** What the listing request for one cutout folder yields. */
  datatype FolderResponse =
    | Unreachable                               // the request or the JSON decoding raised
    | Listing(files: Option<seq<Option<string>>>) // the `file` array, `None` when missing or null; an entry is `None` without a `filename`

  /** What indexing one folder gives the merge: its dictionary, or the exception it raised. */
  datatype Outcome = Indexed(entries: map<string, string>) | Failed

  /** `data.get("file", []) or []`: a missing or null array is an empty one. */
  function FileEntries(files: Option<seq<Option<string>>>): seq<Option<string>>
  {
    match files
    case None => []
    case Some(entries) => entries
  }

  /** Every entry has a file name. */
  predicate AllNamed(entries: seq<Option<string>>)
  {
    forall i :: 0 <= i < |entries| ==> entries[i].Some?
  }

  /** The file names of entries that all have one. */
  function Names(entries: seq<Option<string>>): seq<string>
    requires AllNamed(entries)
  {
    seq(|entries|, i requires 0 <= i < |entries| => entries[i].value)
  }

  /** The assignments `out[source_ID] = download_url` in listing order. */
  function CutoutPairs(pid: string, names: seq<string>): seq<(string, string)>
  {
    seq(|names|, i requires 0 <= i < |names| => (CutoutKey(names[i]), CutoutUrl(pid, names[i])))
  }

  /** `create_cutout_dict`: the folder's dictionary, or a failure if the listing or an entry's file name is missing. */
  function CutoutOutcome(pid: string, response: FolderResponse): Outcome
  {
    match response
    case Unreachable => Failed
    case Listing(files) =>
      var entries := FileEntries(files);
      if AllNamed(entries) then Indexed(Assign(CutoutPairs(pid, Names(entries)))) else Failed
  }

  /** The loop of `create_cutout_dict`; `None.split` raises at the first entry without a file name. */
  method CreateCutoutDict(pid: string, response: FolderResponse) returns (outcome: Outcome)
    ensures outcome == CutoutOutcome(pid, response)
  {
    if response.Unreachable? {
      return Failed;
    }
    var entries := FileEntries(response.files);
    var out: map<string, string> := map[];
    for n := 0 to |entries|
      invariant AllNamed(entries[..n])
      invariant out == Assign(CutoutPairs(pid, Names(entries[..n])))
    {
      match entries[n]
      case None =>
        return Failed;
      case Some(filename) =>
        var sourceId := CutoutKey(filename);
        var downloadUrl := CutoutUrl(pid, filename);
        CutoutPairsSnoc(pid, entries, n);
        AssignSnoc(CutoutPairs(pid, Names(entries[..n])), (sourceId, downloadUrl));
        out := out[sourceId := downloadUrl];
    }
    assert entries[..|entries|] == entries;
    return Indexed(out);
  }

  /** Taking one more named entry appends its assignment. */
  lemma CutoutPairsSnoc(pid: string, entries: seq<Option<string>>, n: int)
    requires 0 <= n < |entries| && AllNamed(entries[..n]) && entries[n].Some?
    ensures AllNamed(entries[..n + 1])
    ensures CutoutPairs(pid, Names(entries[..n + 1])) ==
      CutoutPairs(pid, Names(entries[..n])) + [(CutoutKey(entries[n].value), CutoutUrl(pid, entries[n].value))]
  {
    assert forall i :: 0 <= i < n ==> entries[..n + 1][i] == entries[..n][i];
    var names := Names(entries[..n + 1]);
    assert names == Names(entries[..n]) + [entries[n].value];
  }

  /** The failure cases: an unreachable folder, or an entry without a file name. */
  lemma CutoutFailure(pid: string, response: FolderResponse)
    ensures CutoutOutcome(pid, response).Failed? <==>
      response.Unreachable? || exists i :: 0 <= i < |FileEntries(response.files)| && FileEntries(response.files)[i].None?
  {
  }

  /** A missing, null or empty `file` array gives an empty dictionary. */
  lemma CutoutEmptyListing(pid: string, files: Option<seq<Option<string>>>)
    requires files.None? || files == Some([])
    ensures CutoutOutcome(pid, Listing(files)) == Indexed(map[])
  {
  }

  /** The keys of a folder's dictionary are the cutout keys of its file names. */
  lemma CutoutKeys(pid: string, names: seq<string>, key: string)
    ensures key in Assign(CutoutPairs(pid, names)) <==>
      exists i :: 0 <= i < |names| && CutoutKey(names[i]) == key
  {
    var pairs := CutoutPairs(pid, names);
    AssignDomain(pairs, key);
    assert forall i :: 0 <= i < |names| ==> pairs[i].0 == CutoutKey(names[i]);
  }

  /** Every value is the download URL of the last listed file name with that key. */
  lemma CutoutValues(pid: string, names: seq<string>, key: string)
    requires key in Assign(CutoutPairs(pid, names))
    ensures exists i :: (
      && 0 <= i < |names| && CutoutKey(names[i]) == key
      && Assign(CutoutPairs(pid, names))[key] == CutoutUrl(pid, names[i])
      && forall j :: i < j < |names| ==> CutoutKey(names[j]) != key)
  {
    var pairs := CutoutPairs(pid, names);
    AssignValueOrigin(pairs, key);
    var i :| LastAssignment(pairs, i, key) && pairs[i].1 == Assign(pairs)[key];
    assert forall j :: i < j < |names| ==> pairs[j].0 == CutoutKey(names[j]);
  }

  // ---------------------------------------------------------------------------
  // build_cutout_url_index

  /** `merged.update(result)` over the outcomes, in completion order, skipping failures. */
  function MergeAll(outcomes: seq<Outcome>): map<string, string>
  {
    if outcomes == [] then map[]
    else
      var merged := MergeAll(outcomes[..|outcomes| - 1]);
      match outcomes[|outcomes| - 1]
      case Indexed(entries) => merged + entries
      case Failed => merged
  }

  /** The outcomes of the folder listings, in completion order. */
  function CutoutOutcomes(pid: string, responses: seq<FolderResponse>): seq<Outcome>
  {
    seq(|responses|, i requires 0 <= i < |responses| => CutoutOutcome(pid, responses[i]))
  }

  /**
    The merge loop of `build_cutout_url_index`, with the folders' responses
    given in the order their listings complete.
   */
  method BuildCutoutUrlIndex(pid: string, responses: seq<FolderResponse>) returns (merged: map<string, string>)
    ensures merged == MergeAll(CutoutOutcomes(pid, responses))
  {
    ghost var outcomes := CutoutOutcomes(pid, responses);
    merged := map[];
    for n := 0 to |responses|
      invariant merged == MergeAll(outcomes[..n])
    {
      var outcome := CreateCutoutDict(pid, responses[n]);
      assert outcomes[..n + 1][..n] == outcomes[..n];
      match outcome
      case Indexed(entries) =>
        merged := merged + entries;
      case Failed =>
    }
    assert outcomes[..|responses|] == outcomes;
  }

  /** A key is merged exactly when some successful outcome has it. */
  lemma {:induction false} MergeDomain(outcomes: seq<Outcome>, key: string)
    ensures key in MergeAll(outcomes) <==>
      exists i :: 0 <= i < |outcomes| && outcomes[i].Indexed? && key in outcomes[i].entries
  {
    if outcomes != [] {
      var front := outcomes[..|outcomes| - 1];
      MergeDomain(front, key);
      assert forall i :: 0 <= i < |front| ==> front[i] == outcomes[i];
    }
  }

  /** Outcome `i` is the last successful one that has `key`. */
  predicate LastHolder(outcomes: seq<Outcome>, i: int, key: string)
  {
    && 0 <= i < |outcomes| && outcomes[i].Indexed? && key in outcomes[i].entries
    && forall j :: i < j < |outcomes| ==> !(outcomes[j].Indexed? && key in outcomes[j].entries)
  }

  /** A key takes its value from the last successful outcome that has it. */
  lemma {:induction false} MergeLastWins(outcomes: seq<Outcome>, i: int, key: string)
    requires LastHolder(outcomes, i, key)
    ensures key in MergeAll(outcomes) && MergeAll(outcomes)[key] == outcomes[i].entries[key]
  {
    var front := outcomes[..|outcomes| - 1];
    if i < |outcomes| - 1 {
      assert forall j :: 0 <= j < |front| ==> front[j] == outcomes[j];
      assert LastHolder(front, i, key);
      MergeLastWins(front, i, key);
    }
  }

  /** The successful outcomes, in order. */
  function Successes(outcomes: seq<Outcome>): (successes: seq<Outcome>)
    ensures forall o :: o in successes ==> o.Indexed?
    ensures |successes| <= |outcomes|
    ensures multiset(successes) == multiset(outcomes)[Failed := 0]
  {
    if outcomes == [] then []
    else
      var last := outcomes[|outcomes| - 1];
      var front := Successes(outcomes[..|outcomes| - 1]);
      assert outcomes == outcomes[..|outcomes| - 1] + [last];
      if last.Indexed? then
        assert multiset(front + [last]) == multiset(front) + multiset{last};
        front + [last]
      else
        front
  }

  /** Taking the successes commutes with concatenation, so they keep their order. */
  lemma {:induction false} SuccessesAppend(a: seq<Outcome>, b: seq<Outcome>)
    ensures Successes(a + b) == Successes(a) + Successes(b)
    decreases |b|
  {
    if b == [] {
      assert a + b == a;
    } else {
      var front := b[..|b| - 1];
      assert (a + b)[..|a + b| - 1] == a + front;
      assert (a + b)[|a + b| - 1] == b[|b| - 1];
      SuccessesAppend(a, front);
    }
  }

  /** Failures neither contribute nor stop the fold: merging only the successes gives the same dictionary. */
  lemma {:induction false} MergeSkipsFailures(outcomes: seq<Outcome>)
    ensures MergeAll(Successes(outcomes)) == MergeAll(outcomes)
  {
    if outcomes != [] {
      var front := outcomes[..|outcomes| - 1];
      MergeSkipsFailures(front);
      var s := Successes(front);
      if outcomes[|outcomes| - 1].Indexed? {
        assert (s + [outcomes[|outcomes| - 1]])[..|s|] == s;
      }
    }
  }

  /**
    When no two successful outcomes share a key, the completion order does
    not matter: every key has the value of the one outcome that has it.
   */
  lemma MergeDisjoint(outcomes: seq<Outcome>, i: int, key: string)
    requires 0 <= i < |outcomes| && outcomes[i].Indexed? && key in outcomes[i].entries
    requires forall j :: 0 <= j < |outcomes| && j != i && outcomes[j].Indexed? ==> key !in outcomes[j].entries
    ensures key in MergeAll(outcomes) && MergeAll(outcomes)[key] == outcomes[i].entries[key]
  {
    MergeLastWins(outcomes, i, key);
  }

  /**
    The order matters once two folders share a key: the same two outcomes
    merged in the two possible completion orders give different values.
   */
  lemma MergeOrderMatters(key: string)
    ensures var first := Indexed(map[key := "a"]);
      var second := Indexed(map[key := "b"]);
      && MergeAll([first, second])[key] == "b"
      && MergeAll([second, first])[key] == "a"
  {
    var first := Indexed(map[key := "a"]);
    var second := Indexed(map[key := "b"]);
    assert [first, second][..1] == [first];
    assert [second, first][..1] == [second];
    assert [first][..0] == [];
    assert [second][..0] == [];
  }

  /** Every merged key has the value of the last successful outcome that has it. */
  lemma {:induction false} MergeValueOrigin(outcomes: seq<Outcome>, key: string)
    requires key in MergeAll(outcomes)
    ensures exists i :: LastHolder(outcomes, i, key) && MergeAll(outcomes)[key] == outcomes[i].entries[key]
  {
    var front := outcomes[..|outcomes| - 1];
    var last := outcomes[|outcomes| - 1];
    if last.Indexed? && key in last.entries {
      assert LastHolder(outcomes, |outcomes| - 1, key);
    } else {
      MergeValueOrigin(front, key);
      var i :| LastHolder(front, i, key) && MergeAll(front)[key] == front[i].entries[key];
      assert front[i] == outcomes[i];
      assert forall j :: i < j < |front| ==> front[j] == outcomes[j];
      assert LastHolder(outcomes, i, key);
    }
  }

  // ---------------------------------------------------------------------------
  // The index, stated on the folder listings

  /** The folder's listing was read, every entry has a file name, and `filename` is one of them. */
  predicate ListsNamed(response: FolderResponse, filename: string)
  {
    response.Listing? && AllNamed(FileEntries(response.files)) && Some(filename) in FileEntries(response.files)
  }

  /** No folder after the `i`-th lists a file name with key `key`. */
  ghost predicate NoLaterLister(responses: seq<FolderResponse>, i: int, key: string)
  {
    forall j, g :: 0 <= j < |responses| && i < j && ListsNamed(responses[j], g) ==> CutoutKey(g) != key
  }

  /** A file name listed by a folder that succeeds gives its key to the folder's dictionary. */
  lemma FolderListed(pid: string, response: FolderResponse, f: string)
    requires ListsNamed(response, f)
    ensures CutoutOutcome(pid, response).Indexed? && CutoutKey(f) in CutoutOutcome(pid, response).entries
  {
    var entries := FileEntries(response.files);
    var names := Names(entries);
    var k :| 0 <= k < |entries| && entries[k] == Some(f);
    assert names[k] == f;
    CutoutKeys(pid, names, CutoutKey(f));
  }

  /** Every key of a folder's dictionary is that of a file name the folder lists. */
  lemma FolderIndexed(pid: string, response: FolderResponse, key: string)
    requires CutoutOutcome(pid, response).Indexed? && key in CutoutOutcome(pid, response).entries
    ensures exists f :: ListsNamed(response, f) && CutoutKey(f) == key
  {
    var entries := FileEntries(response.files);
    var names := Names(entries);
    CutoutKeys(pid, names, key);
    var k :| 0 <= k < |names| && CutoutKey(names[k]) == key;
    assert entries[k] == Some(names[k]);
    assert ListsNamed(response, names[k]);
  }

  /** A folder's dictionary has a key exactly when the folder succeeds and lists a file name with that key. */
  lemma FolderKeys(pid: string, response: FolderResponse, key: string)
    ensures (CutoutOutcome(pid, response).Indexed? && key in CutoutOutcome(pid, response).entries) <==>
      exists f :: ListsNamed(response, f) && CutoutKey(f) == key
  {
    if CutoutOutcome(pid, response).Indexed? && key in CutoutOutcome(pid, response).entries {
      FolderIndexed(pid, response, key);
    }
    if exists f :: ListsNamed(response, f) && CutoutKey(f) == key {
      var f :| ListsNamed(response, f) && CutoutKey(f) == key;
      FolderListed(pid, response, f);
    }
  }

  /** A key is in the index exactly when some folder that succeeds lists a file name with that key. */
  lemma IndexKeys(pid: string, responses: seq<FolderResponse>, key: string)
    ensures key in MergeAll(CutoutOutcomes(pid, responses)) <==>
      exists i, f :: 0 <= i < |responses| && ListsNamed(responses[i], f) && CutoutKey(f) == key
  {
    var outcomes := CutoutOutcomes(pid, responses);
    MergeDomain(outcomes, key);
    forall i | 0 <= i < |responses|
      ensures (outcomes[i].Indexed? && key in outcomes[i].entries) <==>
        exists f :: ListsNamed(responses[i], f) && CutoutKey(f) == key
    {
      FolderKeys(pid, responses[i], key);
    }
  }

  /**
    Every value of the index is the download URL of a file name with that key,
    listed by a folder that succeeds, and no folder that succeeds later lists
    a file name with that key.
   */
  lemma IndexValues(pid: string, responses: seq<FolderResponse>, key: string)
    requires key in MergeAll(CutoutOutcomes(pid, responses))
    ensures exists i, f :: (
      && 0 <= i < |responses| && ListsNamed(responses[i], f) && CutoutKey(f) == key
      && MergeAll(CutoutOutcomes(pid, responses))[key] == CutoutUrl(pid, f)
      && NoLaterLister(responses, i, key))
  {
    var outcomes := CutoutOutcomes(pid, responses);
    MergeValueOrigin(outcomes, key);
    var i :| LastHolder(outcomes, i, key) && MergeAll(outcomes)[key] == outcomes[i].entries[key];
    var entries := FileEntries(responses[i].files);
    var names := Names(entries);
    CutoutValues(pid, names, key);
    var k :| 0 <= k < |names| && CutoutKey(names[k]) == key
      && Assign(CutoutPairs(pid, names))[key] == CutoutUrl(pid, names[k]);
    assert outcomes[i] == CutoutOutcome(pid, responses[i]);
    assert entries[k] == Some(names[k]);
    assert ListsNamed(responses[i], names[k]);
    forall j, g | 0 <= j < |responses| && i < j && ListsNamed(responses[j], g) ensures CutoutKey(g) != key {
      assert outcomes[j] == CutoutOutcome(pid, responses[j]);
      FolderKeys(pid, responses[j], key);
    }
    assert NoLaterLister(responses, i, key);
  }
}
