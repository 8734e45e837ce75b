/**
 * The parts of the subtitle-service client that are not networking: turning
 * a search payload into result rows, reading a release value, building a
 * configuration from an API key, the status check on replies, and the
 * short-circuits of the login-token lookup. The HTTP exchange itself is
 * represented by its outcome, given as a parameter.
 */
module OpenSubtitles {
  import opened Wrappers
  import opened Strings

  // ---- Search payload ----

  /** A release given either as one string or as a list of strings. */
  datatype ReleaseValue = Single(value: string) | Multiple(values: seq<string>) {
    /** The release text: the single string, or the first of the list when there is one. */
    function TextValue(): (r: Option<string>)
      ensures Single? ==> r == Some(value)
      ensures Multiple? && values != [] ==> r == Some(values[0])
      ensures Multiple? && values == [] ==> r == None
    {
      match this
      case Single(value) => Some(value)
      case Multiple(values) => if values == [] then None else Some(values[0])
    }
  }

  datatype FeatureDetails = FeatureDetails(title: Option<string>)

  datatype SearchFile = SearchFile(fileID: int, fileName: string)

  datatype SearchAttributes = SearchAttributes(
    files: seq<SearchFile>,
    language: string,
    languageName: Option<string>,
    release: Option<ReleaseValue>,
    featureDetails: Option<FeatureDetails>)
  {
    function ReleaseText(): Option<string> {
      if release.None? then None else release.value.TextValue()
    }
  }

  datatype SearchData = SearchData(attributes: SearchAttributes)

  /** One row of the search results. */
  datatype RemoteSubtitleSearchResult = RemoteSubtitleSearchResult(
    id: int,
    fileID: int,
    fileName: string,
    languageCode: string,
    languageName: Option<string>,
    release: Option<string>,
    title: Option<string>)

  /** The row for one file of one item: identified by the file, labelled by the item. */
  function Row(item: SearchData, file: SearchFile): (r: RemoteSubtitleSearchResult)
    ensures r.id == file.fileID && r.fileID == file.fileID && r.fileName == file.fileName
    ensures r.languageCode == item.attributes.language && r.languageName == item.attributes.languageName
    ensures r.release == item.attributes.ReleaseText()
    ensures item.attributes.featureDetails.None? ==> r.title == None
    ensures item.attributes.featureDetails.Some? ==> r.title == item.attributes.featureDetails.value.title
  {
    var attributes := item.attributes;
    RemoteSubtitleSearchResult(
      file.fileID,
      file.fileID,
      file.fileName,
      attributes.language,
      attributes.languageName,
      attributes.ReleaseText(),
      if attributes.featureDetails.None? then None else attributes.featureDetails.value.title)
  }

  /** The rows of the first `count` files of an item. */
  function ItemRows(item: SearchData, count: nat): (r: seq<RemoteSubtitleSearchResult>)
    requires count <= |item.attributes.files|
    ensures |r| == count
    ensures forall j :: 0 <= j < count ==> r[j] == Row(item, item.attributes.files[j])
  {
    seq(count, j requires 0 <= j < count => Row(item, item.attributes.files[j]))
  }

  /** The rows of all items, items in order and, within an item, files in order. */
  function Flattened(data: seq<SearchData>): seq<RemoteSubtitleSearchResult>
    decreases |data|
  {
    if data == [] then []
    else
      var last := data[|data| - 1];
      Flattened(data[..|data| - 1]) + ItemRows(last, |last.attributes.files|)
  }

  /** The number of files over all items. */
  function TotalFiles(data: seq<SearchData>): nat
    decreases |data|
  {
    if data == [] then 0 else TotalFiles(data[..|data| - 1]) + |data[|data| - 1].attributes.files|
  }

  /** There is one row per file of every item. */
  lemma {:induction false} FlattenedCount(data: seq<SearchData>)
    ensures |Flattened(data)| == TotalFiles(data)
    decreases |data|
  {
    if data != [] {
      FlattenedCount(data[..|data| - 1]);
    }
  }

  /** The rows of earlier items come first: the flattening of a prefix is a prefix of the flattening. */
  lemma {:induction false} FlattenedPrefix(data: seq<SearchData>, i: nat)
    requires i <= |data|
    ensures Flattened(data[..i]) <= Flattened(data)
    decreases |data| - i
  {
    if i < |data| {
      FlattenedPrefix(data, i + 1);
      assert data[..i + 1][..i] == data[..i];
    } else {
      assert data[..i] == data;
    }
  }

  /**
   * Row `TotalFiles(data[..i]) + j` is the row of file `j` of item `i`: every
   * (item, file) pair has its row, at the place payload order gives it.
   */
  lemma RowPosition(data: seq<SearchData>, i: nat, j: nat)
    requires i < |data| && j < |data[i].attributes.files|
    ensures TotalFiles(data[..i]) + j < |Flattened(data)|
    ensures Flattened(data)[TotalFiles(data[..i]) + j] == Row(data[i], data[i].attributes.files[j])
  {
    var head := data[..i + 1];
    assert head[..i] == data[..i];
    assert head[i] == data[i];
    FlattenedCount(data[..i]);
    FlattenedPrefix(data, i + 1);
    assert Flattened(head) == Flattened(data[..i]) + ItemRows(data[i], |data[i].attributes.files|);
  }

  /**
   * The result-building loop of `searchSubtitles`: for each item, for each of
   * its files, append the row.
   */
  method FlattenResults(data: seq<SearchData>) returns (results: seq<RemoteSubtitleSearchResult>)
    ensures results == Flattened(data)
    ensures |results| == TotalFiles(data)
  {
    results := [];
    for i := 0 to |data|
      invariant results == Flattened(data[..i])
    {
      var item := data[i];
      for j := 0 to |item.attributes.files|
        invariant results == Flattened(data[..i]) + ItemRows(item, j)
      {
        assert ItemRows(item, j + 1) == ItemRows(item, j) + [Row(item, item.attributes.files[j])];
        results := results + [Row(item, item.attributes.files[j])];
      }
      assert data[..i + 1][..i] == data[..i];
    }
    assert data[..|data|] == data;
    FlattenedCount(data);
  }

  // ---- Configuration ----

  const UserAgent := "JustPlayNative 1.0"
  const BaseURL := "https://api.opensubtitles.com"

  datatype Configuration = Configuration(
    apiKey: string,
    username: Option<string>,
    password: Option<string>,
    userAgent: string,
    baseURL: string)

  /**
   * `Configuration.fromAPIKey`: the key trimmed of whitespace and newlines,
   * rejected when nothing is left. The user name and password come from the
   * environment and are passed in.
   */
  function FromAPIKey(value: string, username: Option<string>, password: Option<string>): (r: Option<Configuration>)
    ensures r.None? <==> Trim(value, WhitespacesAndNewlines) == []
    ensures r.Some? ==>
      && r.value.apiKey != []
      && !InSet(r.value.apiKey[0], WhitespacesAndNewlines)
      && !InSet(r.value.apiKey[|r.value.apiKey| - 1], WhitespacesAndNewlines)
    ensures r.Some? ==> r.value.userAgent == UserAgent && r.value.baseURL == BaseURL
  {
    var apiKey := Trim(value, WhitespacesAndNewlines);
    if apiKey == [] then None
    else Some(Configuration(apiKey, username, password, UserAgent, BaseURL))
  }

  /** A configuration's key is already trimmed: building again from it gives the same configuration. */
  lemma FromAPIKeyIdempotent(value: string, username: Option<string>, password: Option<string>)
    requires FromAPIKey(value, username, password).Some?
    ensures FromAPIKey(FromAPIKey(value, username, password).value.apiKey, username, password)
         == FromAPIKey(value, username, password)
  {
    TrimIdempotent(value, WhitespacesAndNewlines);
  }

  /** Surrounding whitespace does not change the configuration. */
  lemma FromAPIKeyIgnoresPadding(lead: string, key: string, trail: string, username: Option<string>, password: Option<string>)
    requires forall i :: 0 <= i < |lead| ==> InSet(lead[i], WhitespacesAndNewlines)
    requires forall i :: 0 <= i < |trail| ==> InSet(trail[i], WhitespacesAndNewlines)
    requires key != [] && !InSet(key[0], WhitespacesAndNewlines) && !InSet(key[|key| - 1], WhitespacesAndNewlines)
    ensures FromAPIKey(lead + key + trail, username, password)
         == Some(Configuration(key, username, password, UserAgent, BaseURL))
  {
    TrimPadded(lead, key, trail, WhitespacesAndNewlines);
  }

  // ---- Replies ----

  datatype OpenSubtitlesError =
    | NotConfigured
    | RequestFailed(statusCode: int)
    | UnreadableSubtitle
    | InvalidResponse
    /** The reply body did not decode (the JSON decoder's own error). */
    | DecodingFailed

  /** `(200..<300).contains(statusCode)`, else `requestFailed` with that code. */
  function CheckStatus(statusCode: int): (r: Option<OpenSubtitlesError>)
    ensures r.None? <==> 200 <= statusCode < 300
    ensures r.Some? ==> r.value == RequestFailed(statusCode)
  {
    if 200 <= statusCode < 300 then None else Some(RequestFailed(statusCode))
  }

  /** What came back for the login request: no HTTP response, or a status and the token if the body decoded. */
  datatype LoginReply = NotHTTP | HTTPReply(statusCode: int, token: Option<string>)

  /** A login request: the credentials sent. */
  datatype LoginRequest = LoginRequest(username: string, password: string)

  /** The client's own state: its configuration, the cached token and the login requests it has sent. */
  class OpenSubtitlesClient {
    const configuration: Option<Configuration>
    var authToken: Option<string>
    var loginRequests: seq<LoginRequest>

    constructor(configuration: Option<Configuration>)
      ensures this.configuration == configuration && authToken == None && loginRequests == []
    {
      this.configuration := configuration;
      authToken := None;
      loginRequests := [];
    }

    function IsConfigured(): bool {
      configuration.Some?
    }

    /** Whether a login is possible: a configuration with both a user name and a password. */
    predicate HasCredentials() {
      configuration.Some? && configuration.value.username.Some? && configuration.value.password.Some?
    }

    /**
     * `tokenIfAvailable`: a cached token is returned with no request; without
     * credentials there is no token and no request; otherwise one login
     * request is sent, and a token from a successful reply is cached and
     * returned.
     */
    method TokenIfAvailable(reply: LoginReply) returns (r: Result<Option<string>, OpenSubtitlesError>)
      modifies this
      ensures old(authToken).Some? ==> r == Ok(old(authToken)) && authToken == old(authToken) && loginRequests == old(loginRequests)
      ensures old(authToken).None? && !HasCredentials() ==>
        r == Ok(None) && authToken == None && loginRequests == old(loginRequests)
      ensures old(authToken).None? && HasCredentials() ==>
        loginRequests == old(loginRequests)
          + [LoginRequest(configuration.value.username.value, configuration.value.password.value)]
      ensures old(authToken).None? && HasCredentials() && reply.HTTPReply? && CheckStatus(reply.statusCode).Some? ==>
        r == Err(RequestFailed(reply.statusCode)) && authToken == None
      ensures (old(authToken).None? && HasCredentials() && reply.HTTPReply? && CheckStatus(reply.statusCode).None?
        && reply.token.Some?) ==> r == Ok(reply.token) && authToken == reply.token
      ensures old(authToken).None? && HasCredentials() && reply.NotHTTP? ==>
        r == Err(InvalidResponse) && authToken == None
      ensures (old(authToken).None? && HasCredentials() && reply.HTTPReply? && CheckStatus(reply.statusCode).None?
        && reply.token.None?) ==> r == Err(DecodingFailed) && authToken == None
      ensures r.Err? ==> authToken == old(authToken)
      ensures r.Ok? && r.value.Some? ==> authToken == r.value
    {
      if authToken.Some? {
        return Ok(authToken);
      }
      if !HasCredentials() {
        return Ok(None);
      }
      var configuration := this.configuration.value;
      loginRequests := loginRequests + [LoginRequest(configuration.username.value, configuration.password.value)];
      match reply {
        case NotHTTP =>
          return Err(InvalidResponse);
        case HTTPReply(statusCode, token) =>
          var failure := CheckStatus(statusCode);
          if failure.Some? {
            return Err(failure.value);
          }
          if token.None? {
            return Err(DecodingFailed);
          }
          authToken := token;
          return Ok(token);
      }
    }
  }
}
