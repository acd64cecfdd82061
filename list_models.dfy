/** The diagnostic script that lists the models usable with `generateContent`:
    it finds the API key in the lines of a `.env` file, shows it masked, and
    filters the model list the service returns. */
module ListModels {

  import opened Wrappers
  import opened JsString
  import opened JsArray

  const KeyPrefix: string := "GEMINI_API_KEY="

  // ---------------------------------------------------------------------
  // Finding the key

  /** The characters `.` in a JavaScript regular expression does not match. */
  predicate IsLineTerminator(c: char) {
    c == '\n' || c == '\r' || c == '\U{2028}' || c == '\U{2029}'
  }

  /** The key pattern, anchored at both ends of the line (no multi-line
      flag): the captured group when the whole line is the prefix followed by
      characters that are not line terminators. */
  function MatchKeyLine(line: string): (m: Option<string>)
    ensures m.Some? <==> KeyPrefix <= line && forall i | |KeyPrefix| <= i < |line| :: !IsLineTerminator(line[i])
    ensures m.Some? ==> line == KeyPrefix + m.value
  {
    if KeyPrefix <= line && forall i | |KeyPrefix| <= i < |line| :: !IsLineTerminator(line[i])
    then Some(line[|KeyPrefix|..])
    else None
  }

  /** A line that does not start with the prefix itself (an indented line, an
      `export GEMINI_API_KEY=...` line) does not match, and neither does a
      line that still ends in the `\r` of a CRLF file. */
  lemma NonMatchingLines(line: string)
    ensures |line| > 0 && line[0] != 'G' ==> MatchKeyLine(line).None?
    ensures |line| > 0 && line[|line| - 1] == '\r' ==> MatchKeyLine(line).None?
  {
    if |line| > 0 && line[|line| - 1] == '\r' && KeyPrefix <= line {
      assert KeyPrefix[|KeyPrefix| - 1] == '=';
      assert |line| > |KeyPrefix|;
      assert IsLineTerminator(line[|line| - 1]);
    }
  }

  /** The value starts and ends with the quote character `q` (one character
      can do both). */
  predicate QuotedWith(v: string, q: char) {
    |v| >= 1 && v[0] == q && v[|v| - 1] == q
  }

  /** Removes one pair of matching outer quotes, double or single, by slicing
      off the first and the last character. */
  function StripQuotes(v: string): string {
    if QuotedWith(v, '"') || QuotedWith(v, '\'') then Slice(v, 1, -1) else v
  }

  /** Exactly one outer pair of matching quotes goes, even when the inside
      is itself quoted; a lone quote character leaves the empty string. */
  lemma StripQuotesOnePair(x: string, q: char)
    requires q == '"' || q == '\''
    ensures StripQuotes([q] + x + [q]) == x
    ensures StripQuotes([q]) == ""
  {
    SliceInner([q] + x + [q]);
    SliceInner([q]);
    assert ([q] + x + [q])[1..|x| + 1] == x;
  }

  /** Mismatched quotes and unquoted values are kept as they are. */
  lemma StripQuotesKeepsOthers(v: string)
    requires !(QuotedWith(v, '"') || QuotedWith(v, '\''))
    ensures StripQuotes(v) == v
  {
  }

  /** The value the script takes from a matching line: the captured group,
      trimmed, without one pair of outer quotes. */
  function KeyValue(captured: string): string {
    StripQuotes(Trim(captured))
  }

  /** The key the scan settles on: the value of the first matching line, or
      the empty string when no line matches. */
  function FirstKey(lines: seq<string>): string
  {
    if lines == [] then ""
    else if MatchKeyLine(lines[0]).Some? then KeyValue(MatchKeyLine(lines[0]).value)
    else FirstKey(lines[1..])
  }

  /** Only the first matching line counts; any later one is ignored. */
  lemma {:induction false} FirstMatchWins(lines: seq<string>, j: nat)
    requires j < |lines| && MatchKeyLine(lines[j]).Some?
    requires forall i | 0 <= i < j :: MatchKeyLine(lines[i]).None?
    ensures FirstKey(lines) == KeyValue(MatchKeyLine(lines[j]).value)
  {
    if j > 0 {
      FirstMatchWins(lines[1..], j - 1);
    }
  }

  /** With no matching line there is no key. */
  lemma {:induction false} NoMatchNoKey(lines: seq<string>)
    requires forall i | 0 <= i < |lines| :: MatchKeyLine(lines[i]).None?
    ensures FirstKey(lines) == ""
  {
    if lines != [] {
      NoMatchNoKey(lines[1..]);
    }
  }

  /** The scan over the lines, which stops at the first match. */
  method ScanEnv(lines: seq<string>) returns (apiKey: string)
    ensures apiKey == FirstKey(lines)
  {
    apiKey := "";
    var i := 0;
    while i < |lines|
      invariant 0 <= i <= |lines|
      invariant FirstKey(lines[i..]) == FirstKey(lines)
      invariant apiKey == ""
    {
      var m := MatchKeyLine(lines[i]);
      if m.Some? {
        apiKey := KeyValue(m.value);
        break;
      }
      assert lines[i..][1..] == lines[i + 1..];
      i := i + 1;
    }
  }

  // ---------------------------------------------------------------------
  // Showing the key

  /** The key as printed: `substring` from 0 to 5, then three dots, then
      `substring` from five before the end. */
  function Mask(key: string): string {
    Substring(key, 0, 5) + "..." + Substring(key, |key| - 5, |key|)
  }

  /** A key of five characters or more shows its first five and last five
      (which overlap when the key is shorter than ten). */
  lemma MaskShowsEnds(key: string)
    requires |key| >= 5
    ensures Mask(key) == key[..5] + "..." + key[|key| - 5..]
    ensures |Mask(key)| == 13
  {
  }

  /** A key of at most five characters is shown whole, twice. */
  lemma MaskShowsShortKey(key: string)
    requires |key| <= 5
    ensures Mask(key) == key + "..." + key
  {
    assert key[0..|key|] == key;
  }

  /** What the script does with the `.env` text: abort when no key is found
      or the key is empty, else go on with the key, showing it masked. */
  datatype KeyOutcome = KeyNotFound | UsingKey(key: string, shown: string)

  method LoadApiKey(envContent: string) returns (o: KeyOutcome)
    ensures o.KeyNotFound? <==> FirstKey(Split(envContent, '\n')) == ""
    ensures o.UsingKey? ==> o.key == FirstKey(Split(envContent, '\n')) && o.key != "" && o.shown == Mask(o.key)
  {
    var lines := Split(envContent, '\n');
    var apiKey := ScanEnv(lines);
    if apiKey == "" {
      return KeyNotFound;
    }
    o := UsingKey(apiKey, Mask(apiKey));
  }

  // ---------------------------------------------------------------------
  // Filtering the models

  /** An entry of `json.models`; `supportedGenerationMethods` may be absent. */
  datatype ModelInfo = ModelInfo(name: string, supportedGenerationMethods: Option<seq<string>>)

  predicate SupportsGenerateContent(m: ModelInfo) {
    m.supportedGenerationMethods.Some? && "generateContent" in m.supportedGenerationMethods.value
  }

  /** The models whose `supportedGenerationMethods` is present and contains
      `generateContent`, in order. */
  function GenerateContentModels(models: seq<ModelInfo>): seq<ModelInfo> {
    Filter((m: ModelInfo) => SupportsGenerateContent(m), models)
  }

  /** The filter keeps, in order, exactly the models that list
      `generateContent`. */
  lemma GenerateContentModelsSelects(models: seq<ModelInfo>)
    ensures IsSubsequence(GenerateContentModels(models), models)
    ensures forall m :: m in GenerateContentModels(models) <==> m in models && SupportsGenerateContent(m)
  {
    FilterIsSubsequence((m: ModelInfo) => SupportsGenerateContent(m), models);
  }

  /** The parsed response: whether `json.error` is set, and `json.models` when
      present. */
  datatype ApiBody = ApiBody(error: bool, models: Option<seq<ModelInfo>>)

  /** What the script prints about the response. */
  datatype Report =
    | ApiErrorReport
    | ModelsReport(names: seq<string>, noneFound: bool)
    | NoModelsProperty
    | ParseErrorReport

  /** The handler run once the response has arrived; `body` is `None` when
      the text does not parse as JSON. */
  function ReportOn(body: Option<ApiBody>): (r: Report)
    ensures r.ParseErrorReport? <==> body.None?
    ensures r.ApiErrorReport? <==> body.Some? && body.value.error
    ensures r.NoModelsProperty? <==> body.Some? && !body.value.error && body.value.models.None?
    ensures r.ModelsReport? ==>
      && body.Some? && body.value.models.Some?
      && |r.names| == |GenerateContentModels(body.value.models.value)|
      && (forall i | 0 <= i < |r.names| :: r.names[i] == GenerateContentModels(body.value.models.value)[i].name)
      && (r.noneFound <==> forall i | 0 <= i < |body.value.models.value| :: !SupportsGenerateContent(body.value.models.value[i]))
  {
    match body
    case None => ParseErrorReport
    case Some(json) =>
      if json.error then ApiErrorReport
      else if json.models.None? then NoModelsProperty
      else
        var models := GenerateContentModels(json.models.value);
        assert |models| > 0 ==> models[0] in json.models.value;
        ModelsReport(seq(|models|, i requires 0 <= i < |models| => models[i].name), |models| == 0)
  }
}
