/**
  `encodeIdentifier`: turns a persistent link to a CSIRO DAP collection (a DOI
  or Handle resolver URL, a DAP landing page or a collection-browse page)
  into the bare collection identifier the DAP web service expects, with the
  slashes of the identifier encoded as the selected service version wants.
 */
module Identifier {
  import opened Wrappers
  import opened PyStr

  /** The base URL of the original DAP web service, which writes slashes as `~`. */
  const V1_BASE_URL: string := "https://ws.data.csiro.au/"
  /** The base URL of version 2 of the service, which takes URL-encoded slashes. */
  const V2_BASE_URL: string := "https://data.csiro.au/dap/ws/v2/"

  /** The DOI and Handle resolver prefixes, `?index=1` and the landing-page prefixes, in the order they are removed. */
  const RESOLVER_PATTERNS: seq<string> := [
    "https://doi.org/",
    "http://doi.org/",
    "https://dx.doi.org/",
    "http://dx.doi.org/",
    "http://hdl.handle.net/",
    "https://hdl.handle.net/",
    "?index=1",
    "https://data.csiro.au/dap/landingpage?pid=",
    "http://data.csiro.au/dap/landingpage?pid="
  ]

  /** The collection-browse prefixes, in the order they are removed. */
  const BROWSE_PREFIXES: seq<string> := [
    "https://data.csiro.au/collections/#/collection/CI",
    "https://data.csiro.au/collections/#collection/CI",
    "https://data.csiro.au/collections/collection/CI",
    "https://data.csiro.au/collection/"
  ]

  /** The keyword arguments `baseURL` and `version`; `None` is an argument that was not passed. */
  datatype Options = Options(baseURL: Option<string>, version: Option<int>)

  /**
    The two locals that the argument handling leaves behind: the encode
    character, which every path binds, and `version`, which the default case
    sets to 2.
   */
  datatype Encoding = Encoding(encodeChar: char, version: Option<int>)

  /** Python truthiness of an optional string: passed and non-empty. */
  predicate GivenUrl(baseURL: Option<string>)
  {
    baseURL.Some? && baseURL.value != ""
  }

  /** Python truthiness of an optional number: passed and non-zero. */
  predicate GivenVersion(version: Option<int>)
  {
    version.Some? && version.value != 0
  }

  /**
    Picks the encode character: first from `baseURL`, then, overriding it,
    from `version`; with neither, version 2 and `/`.
   */
  function SelectEncoding(opts: Options): (e: Encoding)
    ensures GivenVersion(opts.version) ==>
      e.encodeChar == (if opts.version.value == 1 then '~' else '/')
    ensures !GivenVersion(opts.version) && GivenUrl(opts.baseURL) ==>
      e.encodeChar == (if opts.baseURL.value == V1_BASE_URL then '~' else '/')
    ensures !GivenVersion(opts.version) && !GivenUrl(opts.baseURL) ==>
      e == Encoding('/', Some(2))
    ensures e.version == Some(1) <==> opts.version == Some(1)
    ensures e.version == Some(1) ==> e.encodeChar == '~'
  {
    if !GivenUrl(opts.baseURL) && !GivenVersion(opts.version) then Encoding('/', Some(2))
    else
      var fromBaseUrl :=
        if !GivenUrl(opts.baseURL) then '/'  // not read: `version` is given and decides
        else if opts.baseURL.value == V1_BASE_URL then '~'
        else '/';  // V2_BASE_URL, and any other base URL by default
      var encodeChar :=
        if !GivenVersion(opts.version) then fromBaseUrl
        else if opts.version.value == 1 then '~'
        else '/';  // version 2, and any other version by default
      Encoding(encodeChar, opts.version)
  }

  /** A chain of `s = s.replace(p, "")`, one for each pattern in order. */
  function RemoveAll(s: string, patterns: seq<string>): string
    decreases |patterns|
  {
    if patterns == [] then s else RemoveAll(ReplaceAll(s, patterns[0], ""), patterns[1..])
  }

  /** `p1 in s or p2 in s or ...` */
  predicate ContainsAny(s: string, patterns: seq<string>)
    decreases |patterns|
  {
    patterns != [] && (Contains(s, patterns[0]) || ContainsAny(s, patterns[1..]))
  }

  /** `s[:s.find("?")]` when `s` has a `?`, and `s` otherwise. */
  function DropQuery(s: string): string
  {
    var q := Find(s, "?");
    if q >= 0 then s[..q] else s
  }

  /** The identifier left once every known link prefix has been removed. */
  function Extract(identifier: string): string
  {
    var id := RemoveAll(identifier, RESOLVER_PATTERNS);
    if ContainsAny(id, BROWSE_PREFIXES) then DropQuery(RemoveAll(id, BROWSE_PREFIXES)) else id
  }

  /** `encodeIdentifier(identifier, **kwargs)`: slashes become `~` only when `version == 1`. */
  function EncodeIdentifier(identifier: string, opts: Options): string
  {
    var e := SelectEncoding(opts);
    var id := Extract(identifier);
    if e.version == Some(1) then ReplaceAll(id, "/", [e.encodeChar]) else id
  }

  /**
    What the docstring describes: the slashes become whatever encode character
    was selected, so a `baseURL` of the original service alone also gives `~`.
   */
  function EncodeIdentifierIntended(identifier: string, opts: Options): (r: string)
    ensures SelectEncoding(opts).encodeChar == '~' ==> '/' !in r
  {
    var e := SelectEncoding(opts);
    var id := Extract(identifier);
    ReplaceCharRemoves(id, '/', '~');
    if e.encodeChar == '~' then ReplaceAll(id, "/", "~") else id
  }

  // ---------------------------------------------------------------------------
  // Argument handling

  /** An explicit, truthy `version` decides the encode character whatever `baseURL` is. */
  lemma VersionTakesPrecedence(url1: Option<string>, url2: Option<string>, version: Option<int>)
    requires GivenVersion(version)
    ensures SelectEncoding(Options(url1, version)).encodeChar == SelectEncoding(Options(url2, version)).encodeChar
  {
  }

  // ---------------------------------------------------------------------------
  // Removing the link prefixes

  /** A pattern holding a `:` or a `?`. */
  predicate Marked(p: string)
  {
    ':' in p || '?' in p
  }

  /** Each removed pattern holds a `:` or a `?`. */
  lemma PatternsMarked()
    ensures forall j :: 0 <= j < |RESOLVER_PATTERNS| ==> Marked(RESOLVER_PATTERNS[j])
    ensures forall j :: 0 <= j < |BROWSE_PREFIXES| ==> Marked(BROWSE_PREFIXES[j])
  {
    forall j | 0 <= j < |RESOLVER_PATTERNS| ensures Marked(RESOLVER_PATTERNS[j]) {
      var p := RESOLVER_PATTERNS[j];
      if j == 6 {
        assert p[0] == '?';
      } else if j in {1, 3, 4, 8} {
        assert p[4] == ':';
      } else {
        assert p[5] == ':';
      }
    }
    forall j | 0 <= j < |BROWSE_PREFIXES| ensures Marked(BROWSE_PREFIXES[j]) {
      assert BROWSE_PREFIXES[j][5] == ':';
    }
  }

  /** A chain of removals leaves a string alone when none of the patterns occurs in it. */
  lemma {:induction false} RemoveAllWithoutMatch(s: string, patterns: seq<string>)
    requires forall j :: 0 <= j < |patterns| ==> patterns[j] != [] && !Contains(s, patterns[j])
    ensures RemoveAll(s, patterns) == s
    decreases |patterns|
  {
    if patterns != [] {
      ReplaceAllAbsent(s, patterns[0], "");
      RemoveAllWithoutMatch(s, patterns[1..]);
    }
  }

  /** `ContainsAny` is false exactly when none of the patterns occurs. */
  lemma {:induction false} ContainsAnyNone(s: string, patterns: seq<string>)
    ensures !ContainsAny(s, patterns) <==> forall j :: 0 <= j < |patterns| ==> !Contains(s, patterns[j])
    decreases |patterns|
  {
    if patterns != [] {
      ContainsAnyNone(s, patterns[1..]);
      assert forall j :: 1 <= j < |patterns| ==> patterns[j] == patterns[1..][j - 1];
    }
  }

  /** A marked pattern does not occur in a string without `:` and `?`. */
  lemma MarkedExcluded(s: string, p: string)
    requires ':' !in s && '?' !in s && Marked(p)
    ensures !Contains(s, p)
  {
    if ':' in p {
      AbsentCharExcludes(s, p, ':');
    } else {
      AbsentCharExcludes(s, p, '?');
    }
  }

  /** No listed pattern occurs in a string that has neither `:` nor `?`. */
  lemma WithoutMarkersNoPattern(s: string)
    requires ':' !in s && '?' !in s
    ensures forall j :: 0 <= j < |RESOLVER_PATTERNS| ==> !Contains(s, RESOLVER_PATTERNS[j])
    ensures forall j :: 0 <= j < |BROWSE_PREFIXES| ==> !Contains(s, BROWSE_PREFIXES[j])
  {
    PatternsMarked();
    forall j | 0 <= j < |RESOLVER_PATTERNS| ensures !Contains(s, RESOLVER_PATTERNS[j]) {
      MarkedExcluded(s, RESOLVER_PATTERNS[j]);
    }
    forall j | 0 <= j < |BROWSE_PREFIXES| ensures !Contains(s, BROWSE_PREFIXES[j]) {
      MarkedExcluded(s, BROWSE_PREFIXES[j]);
    }
  }

  /** An input holding none of the listed patterns is not changed by the extraction. */
  lemma ExtractUnlisted(s: string)
    requires forall j :: 0 <= j < |RESOLVER_PATTERNS| ==> !Contains(s, RESOLVER_PATTERNS[j])
    requires forall j :: 0 <= j < |BROWSE_PREFIXES| ==> !Contains(s, BROWSE_PREFIXES[j])
    ensures Extract(s) == s
  {
    RemoveAllWithoutMatch(s, RESOLVER_PATTERNS);
    ContainsAnyNone(s, BROWSE_PREFIXES);
  }

  /**
    A chain of removals applied to `p + t`, starting with `p`, leaves `t`
    when no pattern occurs in `t`.
   */
  lemma RemoveAllLeading(p: string, t: string, rest: seq<string>)
    requires p != [] && !Contains(t, p)
    requires forall j :: 0 <= j < |rest| ==> rest[j] != [] && !Contains(t, rest[j])
    ensures RemoveAll(p + t, [p] + rest) == t
  {
    var s := p + t;
    assert StartsWith(s, p) by { assert s[..|p|] == p; }
    ReplaceAllAtStart(s, p, "");
    assert s[|p|..] == t;
    assert ReplaceAll(t, p, "") == t;
    assert ReplaceAll(s, p, "") == t;
    assert ([p] + rest)[0] == p && ([p] + rest)[1..] == rest;
    RemoveAllWithoutMatch(t, rest);
  }

  /** Removing the patterns of `a + b` is removing those of `a`, then those of `b`. */
  lemma {:induction false} RemoveAllAppend(s: string, a: seq<string>, b: seq<string>)
    ensures RemoveAll(s, a + b) == RemoveAll(RemoveAll(s, a), b)
    decreases |a|
  {
    if a != [] {
      assert (a + b)[0] == a[0] && (a + b)[1..] == a[1..] + b;
      RemoveAllAppend(ReplaceAll(s, a[0], ""), a[1..], b);
    } else {
      assert a + b == b;
    }
  }

  /**
    A chain of removals applied to `patterns[j] + t` gives `t`, when no
    earlier pattern occurs in `patterns[j] + t` and no pattern occurs in `t`.
   */
  lemma RemoveAllAt(patterns: seq<string>, j: int, t: string)
    requires 0 <= j < |patterns|
    requires forall i :: 0 <= i < |patterns| ==> patterns[i] != []
    requires forall i :: 0 <= i < j ==> !Contains(patterns[j] + t, patterns[i])
    requires forall i :: 0 <= i < |patterns| ==> !Contains(t, patterns[i])
    ensures RemoveAll(patterns[j] + t, patterns) == t
  {
    var before := patterns[..j];
    var after := patterns[j + 1..];
    assert patterns == before + ([patterns[j]] + after);
    RemoveAllAppend(patterns[j] + t, before, [patterns[j]] + after);
    RemoveAllWithoutMatch(patterns[j] + t, before);
    RemoveAllLeading(patterns[j], t, after);
  }

  /** Every removed pattern is non-empty. */
  lemma PatternsNonEmpty()
    ensures forall j :: 0 <= j < |RESOLVER_PATTERNS| ==> RESOLVER_PATTERNS[j] != []
    ensures forall j :: 0 <= j < |BROWSE_PREFIXES| ==> BROWSE_PREFIXES[j] != []
  {
    PatternsMarked();
  }

  /**
    Any one of the DOI, Handle, `?index=1` or landing-page patterns in front
    of `t` is removed and nothing else changes, when no listed pattern occurs
    in `t` and no pattern removed before it occurs across the join.
   */
  lemma ExtractResolver(j: int, t: string)
    requires 0 <= j < |RESOLVER_PATTERNS|
    requires forall i :: 0 <= i < j ==> !Contains(RESOLVER_PATTERNS[j] + t, RESOLVER_PATTERNS[i])
    requires forall i :: 0 <= i < |RESOLVER_PATTERNS| ==> !Contains(t, RESOLVER_PATTERNS[i])
    requires forall i :: 0 <= i < |BROWSE_PREFIXES| ==> !Contains(t, BROWSE_PREFIXES[i])
    ensures Extract(RESOLVER_PATTERNS[j] + t) == t
  {
    PatternsNonEmpty();
    RemoveAllAt(RESOLVER_PATTERNS, j, t);
    ContainsAnyNone(t, BROWSE_PREFIXES);
  }

  /**
    Any one of the collection-browse prefixes in front of `t` is removed and
    the query string of `t` is cut, when no resolver pattern occurs in the
    whole input, no browse prefix occurs in `t`, and no browse prefix removed
    before it occurs across the join.
   */
  lemma ExtractBrowse(j: int, t: string)
    requires 0 <= j < |BROWSE_PREFIXES|
    requires forall i :: 0 <= i < |RESOLVER_PATTERNS| ==> !Contains(BROWSE_PREFIXES[j] + t, RESOLVER_PATTERNS[i])
    requires forall i :: 0 <= i < j ==> !Contains(BROWSE_PREFIXES[j] + t, BROWSE_PREFIXES[i])
    requires forall i :: 0 <= i < |BROWSE_PREFIXES| ==> !Contains(t, BROWSE_PREFIXES[i])
    ensures Extract(BROWSE_PREFIXES[j] + t) == DropQuery(t)
  {
    var s := BROWSE_PREFIXES[j] + t;
    PatternsNonEmpty();
    RemoveAllWithoutMatch(s, RESOLVER_PATTERNS);
    assert MatchAt(s, BROWSE_PREFIXES[j], 0) by { assert s[0..][..|BROWSE_PREFIXES[j]|] == BROWSE_PREFIXES[j]; }
    assert Contains(s, BROWSE_PREFIXES[j]);
    ContainsAnyNone(s, BROWSE_PREFIXES);
    RemoveAllAt(BROWSE_PREFIXES, j, t);
  }

  /** `https://doi.org/` in front of an identifier without `:` or `?` is removed and nothing else changes. */
  lemma ExtractDoi(t: string)
    requires ':' !in t && '?' !in t
    ensures Extract(RESOLVER_PATTERNS[0] + t) == t
  {
    WithoutMarkersNoPattern(t);
    ExtractResolver(0, t);
  }

  // ---------------------------------------------------------------------------
  // The query string of collection-browse URLs

  /** `DropQuery` keeps what precedes the first `?`: a prefix without `?`. */
  lemma DropQueryPrefix(s: string)
    ensures var r := DropQuery(s);
      && StartsWith(s, r)
      && '?' !in r
      && (r == s || s[|r|] == '?')
  {
    FindChar(s, '?');
  }

  /**
    When a collection-browse prefix is present once the resolver prefixes are
    gone, the identifier ends before the first `?`; otherwise nothing is cut.
   */
  lemma BrowseQueryDropped(s: string)
    ensures var id := RemoveAll(s, RESOLVER_PATTERNS);
      && (ContainsAny(id, BROWSE_PREFIXES) ==> '?' !in Extract(s))
      && (!ContainsAny(id, BROWSE_PREFIXES) ==> Extract(s) == id)
  {
    DropQueryPrefix(RemoveAll(RemoveAll(s, RESOLVER_PATTERNS), BROWSE_PREFIXES));
  }

  // ---------------------------------------------------------------------------
  // Slash encoding

  /** With `version=1` every slash of the extracted identifier becomes `~`, and no slash is left. */
  lemma EncodeVersion1(identifier: string, baseURL: Option<string>)
    ensures var id := Extract(identifier);
      var r := EncodeIdentifier(identifier, Options(baseURL, Some(1)));
      && r == ReplaceAll(id, "/", "~")
      && |r| == |id|
      && (forall j :: 0 <= j < |id| ==> r[j] == (if id[j] == '/' then '~' else id[j]))
      && '/' !in r
  {
    ReplaceChar(Extract(identifier), '/', '~');
    ReplaceCharRemoves(Extract(identifier), '/', '~');
  }

  /** For any `version` other than 1, or none, the extracted identifier is returned with its slashes. */
  lemma EncodeKeepsSlashes(identifier: string, opts: Options)
    requires opts.version != Some(1)
    ensures EncodeIdentifier(identifier, opts) == Extract(identifier)
  {
  }

  /** An input holding none of the listed patterns comes back unchanged, up to the `version=1` slash encoding. */
  lemma EncodeUnlisted(identifier: string, opts: Options)
    requires forall j :: 0 <= j < |RESOLVER_PATTERNS| ==> !Contains(identifier, RESOLVER_PATTERNS[j])
    requires forall j :: 0 <= j < |BROWSE_PREFIXES| ==> !Contains(identifier, BROWSE_PREFIXES[j])
    ensures EncodeIdentifier(identifier, opts) ==
      if opts.version == Some(1) then ReplaceAll(identifier, "/", "~") else identifier
  {
    ExtractUnlisted(identifier);
  }

  /** A DOI whose identifier has no `:` and no `?` loses its resolver prefix and nothing else. */
  lemma EncodeDoi(t: string, opts: Options)
    requires ':' !in t && '?' !in t
    ensures EncodeIdentifier(RESOLVER_PATTERNS[0] + t, opts) ==
      if opts.version == Some(1) then ReplaceAll(t, "/", "~") else t
  {
    ExtractDoi(t);
  }

  // ---------------------------------------------------------------------------
  // The docstring examples

  /** The identifier of the docstring's example, `10.4225/08/59475c67be7a4`. */
  const DOC_ID: string := "10.4225" + "/" + "08" + "/" + "59475c67be7a4"
  /** The same identifier with its slashes written as `~`, `10.4225~08~59475c67be7a4`. */
  const DOC_ID_TILDE: string := "10.4225" + "~" + "08" + "~" + "59475c67be7a4"
  /** The docstring's example DOI, `https://doi.org/10.4225/08/59475c67be7a4`. */
  const DOC_DOI: string := RESOLVER_PATTERNS[0] + DOC_ID

  /** Replacing the slashes of `a/b/c`, where the pieces have none, gives `a~b~c`. */
  lemma ReplaceTwoSlashes(a: string, b: string, c: string)
    requires '/' !in a && '/' !in b && '/' !in c
    ensures ReplaceAll(a + "/" + b + "/" + c, "/", "~") == a + "~" + b + "~" + c
  {
    assert a + "/" + b + "/" + c == a + ['/'] + (b + "/" + c);
    ReplaceCharCons(a, b + "/" + c, '/', '~');
    ReplaceCharCons(b, c, '/', '~');
    ReplaceCharNone(c, '/', '~');
  }

  /** The example identifier has neither `:` nor `?`, and differs from its tilde form. */
  lemma DocIdMarks()
    ensures ':' !in DOC_ID && '?' !in DOC_ID
    ensures DOC_ID != DOC_ID_TILDE
  {
    assert DOC_ID[7] != DOC_ID_TILDE[7];
  }

  /** `~` for `/` turns the example identifier into its tilde form. */
  lemma DocIdTilde()
    ensures ReplaceAll(DOC_ID, "/", "~") == DOC_ID_TILDE
  {
    ReplaceTwoSlashes("10.4225", "08", "59475c67be7a4");
  }

  /** `encodeIdentifier(doi, version=1)` and `encodeIdentifier(doi, version=2)` as the docstring gives them. */
  lemma DocExamplesByVersion(baseURL: Option<string>)
    ensures EncodeIdentifier(DOC_DOI, Options(baseURL, Some(1))) == DOC_ID_TILDE
    ensures EncodeIdentifier(DOC_DOI, Options(baseURL, Some(2))) == DOC_ID
  {
    DocIdMarks();
    DocIdTilde();
    EncodeDoi(DOC_ID, Options(baseURL, Some(1)));
    EncodeDoi(DOC_ID, Options(baseURL, Some(2)));
  }

  /** `encodeIdentifier(doi, baseURL="https://data.csiro.au/dap/ws/v2/")` as the docstring gives it. */
  lemma DocExampleV2BaseUrl()
    ensures EncodeIdentifier(DOC_DOI, Options(Some(V2_BASE_URL), None)) == DOC_ID
  {
    DocIdMarks();
    EncodeDoi(DOC_ID, Options(Some(V2_BASE_URL), None));
  }

  /**
    With only the original service's base URL given, `~` is selected as the
    encode character, yet the slashes stay: substitution waits for `version == 1`.
   */
  lemma V1BaseUrlAloneKeepsSlashes(identifier: string, version: Option<int>)
    requires !GivenVersion(version)
    ensures SelectEncoding(Options(Some(V1_BASE_URL), version)).encodeChar == '~'
    ensures EncodeIdentifier(identifier, Options(Some(V1_BASE_URL), version)) == Extract(identifier)
  {
  }

  /**
    `encodeIdentifier(doi, baseURL="https://ws.data.csiro.au/")` keeps the
    slashes: the base URL selects `~`, but `version` stays unset and only
    `version == 1` triggers the substitution. The docstring promises the
    tilde form.
   */
  lemma DocExampleV1BaseUrlKeepsSlashes()
    ensures EncodeIdentifier(DOC_DOI, Options(Some(V1_BASE_URL), None)) == DOC_ID
    ensures EncodeIdentifier(DOC_DOI, Options(Some(V1_BASE_URL), None)) != DOC_ID_TILDE
  {
    DocIdMarks();
    V1BaseUrlAloneKeepsSlashes(DOC_DOI, None);
    ExtractDoi(DOC_ID);
  }

  /** The collection identifier that the script builds its index for, `10.25919/nh9d-t846`. */
  const COLLECTION_ID: string := "10.25919/nh9d-t846"

  /** The script's call on `https://doi.org/10.25919/nh9d-t846`, with no keyword arguments. */
  lemma CollectionDoi()
    ensures EncodeIdentifier(RESOLVER_PATTERNS[0] + COLLECTION_ID, Options(None, None)) == COLLECTION_ID
  {
    assert ':' !in COLLECTION_ID && '?' !in COLLECTION_ID;
    EncodeDoi(COLLECTION_ID, Options(None, None));
  }

  // ---------------------------------------------------------------------------
  // The encoding the docstring describes

  /** The two base URLs are non-empty and differ, so the second one selects `/`. */
  lemma BaseUrlsDiffer()
    ensures V1_BASE_URL != "" && V2_BASE_URL != ""
    ensures V1_BASE_URL != V2_BASE_URL
  {
    assert V1_BASE_URL[8] != V2_BASE_URL[8];
  }

  /** The intended encoding of a DOI whose identifier has no `:` and no `?`. */
  lemma EncodeDoiIntended(t: string, opts: Options)
    requires ':' !in t && '?' !in t
    ensures EncodeIdentifierIntended(RESOLVER_PATTERNS[0] + t, opts) ==
      if SelectEncoding(opts).encodeChar == '~' then ReplaceAll(t, "/", "~") else t
  {
    ExtractDoi(t);
  }

  /** The intended encoding of such a DOI when a non-zero `version` is given. */
  lemma EncodeDoiIntendedByVersion(t: string, baseURL: Option<string>, version: int)
    requires ':' !in t && '?' !in t
    requires version != 0
    ensures EncodeIdentifierIntended(RESOLVER_PATTERNS[0] + t, Options(baseURL, Some(version))) ==
      if version == 1 then ReplaceAll(t, "/", "~") else t
  {
    EncodeDoiIntended(t, Options(baseURL, Some(version)));
  }

  /** The two docstring examples that pass `version` hold for the intended encoding. */
  lemma IntendedDocExamplesByVersion(baseURL: Option<string>)
    ensures EncodeIdentifierIntended(DOC_DOI, Options(baseURL, Some(1))) == DOC_ID_TILDE
    ensures EncodeIdentifierIntended(DOC_DOI, Options(baseURL, Some(2))) == DOC_ID
  {
    DocIdMarks();
    DocIdTilde();
    EncodeDoiIntendedByVersion(DOC_ID, baseURL, 1);
    EncodeDoiIntendedByVersion(DOC_ID, baseURL, 2);
  }

  /** The intended encoding of such a DOI when only a non-empty `baseURL` is given. */
  lemma EncodeDoiIntendedByBaseUrl(t: string, url: string, version: Option<int>)
    requires ':' !in t && '?' !in t
    requires url != "" && !GivenVersion(version)
    ensures EncodeIdentifierIntended(RESOLVER_PATTERNS[0] + t, Options(Some(url), version)) ==
      if url == V1_BASE_URL then ReplaceAll(t, "/", "~") else t
  {
    EncodeDoiIntended(t, Options(Some(url), version));
  }

  /** The two docstring examples that pass `baseURL` hold for the intended encoding. */
  lemma IntendedDocExamplesByBaseUrl(version: Option<int>)
    requires !GivenVersion(version)
    ensures EncodeIdentifierIntended(DOC_DOI, Options(Some(V1_BASE_URL), version)) == DOC_ID_TILDE
    ensures EncodeIdentifierIntended(DOC_DOI, Options(Some(V2_BASE_URL), version)) == DOC_ID
  {
    DocIdMarks();
    DocIdTilde();
    BaseUrlsDiffer();
    EncodeDoiIntendedByBaseUrl(DOC_ID, V1_BASE_URL, version);
    EncodeDoiIntendedByBaseUrl(DOC_ID, V2_BASE_URL, version);
  }

  /**
    The intended encoding and the code differ only when `version` is unset
    (or falsy) and `baseURL` is the original service's.
   */
  lemma IntendedAgreesUnlessV1BaseUrlAlone(identifier: string, opts: Options)
    requires GivenVersion(opts.version) || !GivenUrl(opts.baseURL) || opts.baseURL.value != V1_BASE_URL
    ensures EncodeIdentifierIntended(identifier, opts) == EncodeIdentifier(identifier, opts)
  {
  }
}
