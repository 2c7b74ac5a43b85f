/**
  The program's own flow once the outside world has answered: the count
  flag clamped to 1..3, the endpoint joined to the chat path, settings read
  from the environment, the staged-diff check, and one whole session from
  the model's reply to the message that would be committed. The git
  commands, the HTTP exchange and the terminal are parameters here.
 */
module Cli {
  import opened Wrappers
  import opened Text
  import opened Suggestions
  import opened Selection

  const DefaultEndpoint: string := "http://localhost:11434"
  const DefaultModel: string := "llama3.1"
  const DefaultCount: int := 3
  const ChatPath: string := "/api/chat"

  /** `envOr`: the environment value, trimmed, unless it is blank; `value`
      is what `os.Getenv` returned (empty when the variable is unset). */
  function EnvOr(value: string, fallback: string): (r: string)
    ensures r == fallback || (r != "" && Trimmed(r))
    ensures Blank(value) ==> r == fallback
    ensures !Blank(value) ==> r == TrimSpace(value)
  {
    TrimSpaceBlank(value);
    var v := TrimSpace(value);
    if v != "" then v else fallback
  }

  /** A set variable wins over the default only when it says something. */
  lemma EnvOrDefault(value: string, fallback: string)
    ensures EnvOr(value, fallback) == fallback <==> Blank(value) || TrimSpace(value) == fallback
  {
    TrimSpaceBlank(value);
  }

  /** The requested number of suggestions, forced into 1..3. */
  function ClampCount(count: int): (n: int)
    ensures 1 <= n <= 3
    ensures 1 <= count <= 3 ==> n == count
    ensures count < 1 ==> n == 1
    ensures count > 3 ==> n == 3
  {
    if count < 1 then 1 else if count > 3 then 3 else count
  }

  /** The first `n` suggestions, or all of them when there are fewer. */
  function Truncate(msgs: seq<string>, n: nat): (r: seq<string>)
    ensures |r| == if |msgs| < n then |msgs| else n
    ensures r == msgs[..|r|]
  {
    if |msgs| > n then msgs[..n] else msgs
  }

  function Slashes(k: nat): (s: string)
    ensures |s| == k && forall i :: 0 <= i < k ==> s[i] == '/'
  {
    if k == 0 then "" else Slashes(k - 1) + "/"
  }

  predicate IsSlash(c: char) {
    c == '/'
  }

  /** The chat URL: the endpoint without its trailing slashes, then `/api/chat`. */
  function ChatUrl(endpoint: string): (url: string)
    ensures |url| >= |ChatPath| && url[|url| - |ChatPath|..] == ChatPath
    ensures |url| - |ChatPath| <= |endpoint|
  {
    TrimRight(endpoint, IsSlash) + ChatPath
  }

  /** The endpoint is kept up to its trailing slashes: what comes before the
      chat path is a prefix of the endpoint, followed there by slashes only,
      and does not itself end in a slash. */
  lemma ChatUrlBase(endpoint: string)
    ensures var base := ChatUrl(endpoint)[..|ChatUrl(endpoint)| - |ChatPath|];
      && base == endpoint[..|base|]
      && (forall i :: |base| <= i < |endpoint| ==> endpoint[i] == '/')
      && (base != [] ==> base[|base| - 1] != '/')
  {
    var base := TrimRight(endpoint, IsSlash);
    TrimRightPrefix(endpoint, IsSlash);
    assert ChatUrl(endpoint)[..|ChatUrl(endpoint)| - |ChatPath|] == base;
  }

  /** Any number of trailing slashes on the endpoint gives the same URL. */
  lemma {:induction false} ChatUrlTrailingSlashes(endpoint: string, k: nat)
    ensures ChatUrl(endpoint + Slashes(k)) == ChatUrl(endpoint)
    decreases k
  {
    if k > 0 {
      ChatUrlTrailingSlashes(endpoint, k - 1);
      var e := endpoint + Slashes(k);
      assert e == endpoint + Slashes(k - 1) + "/";
      assert e[..|e| - 1] == endpoint + Slashes(k - 1) && IsSlash(e[|e| - 1]);
      assert TrimRight(e, IsSlash) == TrimRight(endpoint + Slashes(k - 1), IsSlash);
    } else {
      assert endpoint + Slashes(0) == endpoint;
    }
  }

  /** An endpoint that does not end in a slash is used as it is. */
  lemma ChatUrlPlain(endpoint: string)
    requires endpoint == [] || endpoint[|endpoint| - 1] != '/'
    ensures ChatUrl(endpoint) == endpoint + ChatPath
  {
  }

  /** With neither variable set, the defaults apply: the local Ollama
      server's chat URL, the `llama3.1` model and three suggestions. */
  lemma DefaultsUnset()
    ensures EnvOr("", DefaultEndpoint) == DefaultEndpoint
    ensures EnvOr("", DefaultModel) == DefaultModel
    ensures ChatUrl(EnvOr("", DefaultEndpoint)) == "http://localhost:11434/api/chat"
    ensures ClampCount(DefaultCount) == DefaultCount
  {
    ChatUrlPlain(DefaultEndpoint);
  }

  /** The staged diff counts as empty when it is nothing but white space. */
  predicate NoStagedChanges(diff: string): (b: bool)
    ensures b <==> Blank(diff)
  {
    TrimSpaceBlank(diff);
    TrimSpace(diff) == ""
  }

  datatype SessionError =
    | NothingStaged                      // "no staged changes (git diff --staged is empty)"
    | ParseFailed(error: ParseError)     // from parsing the model's reply
    | NoSuggestions                      // "no suggestions returned"

  datatype SessionOutcome =
    | Committed(message: string)
    | Failed(error: SessionError)
    | AwaitingInput

  /** The suggestions offered: the parsed reply cut to the clamped count. */
  function Offered(count: int, reply: string, decode: string -> Option<seq<string>>): (r: Result<seq<string>, ParseError>)
    ensures r.Failure? <==> Parse(reply, decode).Failure?
    ensures r.Success? ==>
      var all := Parse(reply, decode).value;
      |r.value| == (if |all| < ClampCount(count) then |all| else ClampCount(count)) && r.value == all[..|r.value|]
    ensures r.Success? ==> |r.value| <= ClampCount(count) && Clean(r.value) && Distinct(r.value)
  {
    match Parse(reply, decode)
    case Failure(e) => Failure(e)
    case Success(all) => Success(Truncate(all, ClampCount(count)))
  }

  /** One session: the diff check, the parse of the model's reply, the cut
      to the requested count, the empty-list check and the dialogue. */
  function Session(count: int, diff: string, reply: string, decode: string -> Option<seq<string>>,
                   lines: seq<string>, scan: string -> Option<int>): (o: SessionOutcome)
    ensures o == Failed(NothingStaged) <==> NoStagedChanges(diff)
    ensures o.Failed? && o.error.ParseFailed? <==> !NoStagedChanges(diff) && Parse(reply, decode).Failure?
    ensures o.Failed? && o.error.ParseFailed? ==> o.error.error == Parse(reply, decode).error
    ensures o == Failed(NoSuggestions) <==> !NoStagedChanges(diff) && Offered(count, reply, decode) == Success([])
    ensures o.Committed? || o == AwaitingInput ==>
      !NoStagedChanges(diff) && Offered(count, reply, decode).Success? && Offered(count, reply, decode).value != []
    ensures o.Committed? ==> o.message != "" && Trimmed(o.message)
    ensures o.Committed? || o == AwaitingInput ==>
      Run(Selecting, lines, Offered(count, reply, decode).value, scan)
        == (if o.Committed? then Chosen(o.message) else NeedMoreInput)
  {
    if NoStagedChanges(diff) then Failed(NothingStaged)
    else
      match Offered(count, reply, decode)
      case Failure(e) => Failed(ParseFailed(e))
      case Success(msgs) =>
        if msgs == [] then Failed(NoSuggestions)
        else
          match Run(Selecting, lines, msgs, scan)
          case Chosen(m) => Committed(m)
          case NeedMoreInput => AwaitingInput
  }

  /** The steps of `main` after the flags are parsed, in order: clamp the
      count in place, check the diff, parse and cut the reply, reject an
      empty list, run the dialogue. */
  method RunSession(count: int, diff: string, reply: string, decode: string -> Option<seq<string>>,
                    lines: seq<string>, scan: string -> Option<int>)
    returns (o: SessionOutcome)
    ensures o == Session(count, diff, reply, decode, lines, scan)
  {
    var n := count;
    if n < 1 {
      n := 1;
    }
    if n > 3 {
      n := 3;
    }
    assert n == ClampCount(count);
    if TrimSpace(diff) == "" {
      return Failed(NothingStaged);
    }
    var parsed := ParseSuggestions(reply, decode);
    if parsed.Failure? {
      return Failed(ParseFailed(parsed.error));
    }
    var msgs := parsed.value;
    if |msgs| > n {
      msgs := msgs[..n];
    }
    if |msgs| == 0 {
      return Failed(NoSuggestions);
    }
    var chosen := ChooseMessage(msgs, lines, scan);
    if chosen.NeedMoreInput? {
      return AwaitingInput;
    }
    return Committed(chosen.message);
  }

  /** At most the clamped count of suggestions (never more than three) is
      offered, possibly none; each is non-empty, trimmed and different from
      the others, in the order the parser produced them. */
  lemma OfferedBounds(count: int, reply: string, decode: string -> Option<seq<string>>, msgs: seq<string>)
    requires Offered(count, reply, decode) == Success(msgs)
    ensures |msgs| <= ClampCount(count) <= 3
    ensures |msgs| == if |Parse(reply, decode).value| < ClampCount(count) then |Parse(reply, decode).value| else ClampCount(count)
    ensures Clean(msgs) && Distinct(msgs)
    ensures exists all :: Parse(reply, decode) == Success(all) && msgs == all[..|msgs|]
  {
    var all := Parse(reply, decode).value;
    assert Clean(all) && Distinct(all);
    assert msgs == all[..|msgs|];
  }

  /** A committed message is never blank and never padded: it is one of the
      offered suggestions or a line the user typed, trimmed. */
  lemma SessionCommitted(count: int, diff: string, reply: string, decode: string -> Option<seq<string>>,
                         lines: seq<string>, scan: string -> Option<int>, m: string)
    requires Session(count, diff, reply, decode, lines, scan) == Committed(m)
    ensures m != "" && Trimmed(m)
    ensures !NoStagedChanges(diff)
    ensures (exists msgs :: Offered(count, reply, decode) == Success(msgs) && m in msgs)
         || (exists k :: 0 <= k < |lines| && TrimSpace(lines[k]) == m)
  {
    var msgs := Offered(count, reply, decode).value;
    OfferedBounds(count, reply, decode, msgs);
    RunChosen(Selecting, lines, msgs, scan, m);
  }
}
