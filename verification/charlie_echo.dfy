/** The turn interpreter of the `CharlieEcho` bot: one inbound activity, one
    reply, chosen by a first-match ladder over the lower-cased message text. */
module CharlieEcho {
  import opened Wrappers
  import opened Strings
  import Base64
  import Util

  /** `Environment.NewLine` (platform dependent; only `EchoExample` spells
      its value out). */
  const NewLine: string := "\n"

  /** `ActivityTypes.Message`. */
  const MessageType: string := "message"

  /** The part of the inbound activity a turn reads: its type and, for a
      message, its text (None when the message carries no text). */
  datatype Activity = Activity(activityType: string, text: Option<string>)

  /** What a turn takes from outside the activity: the UTC and local clocks and
      a fresh GUID, already formatted, and the weather request for a location. */
  datatype Env = Env(utcNow: string, now: string, newGuid: string,
                     fetch: string -> Util.FetchOutcome)

  /** The branch of the ladder a message falls into, with its argument. */
  datatype Command =
    | Utc
    | Time
    | EncodeText(plainText: string)
    | DecodeText(encoded: string)
    | NewGuid
    | Weather(location: string)
    | Echo(text: string)

  /** Why a message turn ends without a reply: reading the text of a message
      that has none, or an input `Util.Base64Decode` rejects. */
  datatype TurnError = NullText | DecodeFailed(error: Base64.DecodeError)

  /** The argument of a prefix command: the original-case text after the
      keyword, trimmed. */
  function Argument(text: string, keyword: string): (arg: string)
    requires |keyword| <= |text|
    ensures |arg| <= |text| - |keyword|
  {
    Trim(text[|keyword|..])
  }

  /** The if/else-if ladder. The tests look at the lower-cased text; the
      argument is cut from the original text at the keyword's length. */
  function Classify(text: string): (c: Command)
    ensures c.Echo? ==> c.text == text
    ensures c.EncodeText? ==> |c.plainText| <= |text| - 12
    ensures c.DecodeText? ==> |c.encoded| <= |text| - 12
    ensures c.Weather? ==> |c.location| <= |text| - 7
  {
    var lower := ToLower(text);
    if lower == "utc" then Utc
    else if lower == "time" then Time
    else if StartsWith(lower, "base64encode") then EncodeText(Argument(text, "base64encode"))
    else if StartsWith(lower, "base64decode") then DecodeText(Argument(text, "base64decode"))
    else if lower == "guid" then NewGuid
    else if StartsWith(lower, "weather") then Weather(Argument(text, "weather"))
    else Echo(text)
  }

  /** The reply to a message of each branch. A decode failure is not caught:
      the turn fails and nothing is sent. */
  function Respond(command: Command, env: Env): (r: Result<string, TurnError>)
    ensures r.Failure? <==> command.DecodeText? && !Base64.WellFormed(command.encoded)
  {
    match command
    case Utc => Success("Current time UTC=" + env.utcNow + NewLine)
    case Time => Success("Current time=" + env.now + NewLine)
    case EncodeText(plainText) =>
      Success("base 64 encoded=" + Util.Base64Encode(plainText) + NewLine)
    case DecodeText(encoded) =>
      (match Util.Base64Decode(encoded)
       case Success(decoded) => Success("your base64 decode=" + decoded + NewLine)
       case Failure(e) => Failure(DecodeFailed(e)))
    case NewGuid => Success("random GUID=" + env.newGuid + NewLine)
    case Weather(location) =>
      Success("Current weather in " + Util.GetWeather(env.fetch(location)) + NewLine)
    case Echo(text) => Success("What does , " + text + " mean ? " + NewLine)
  }

  /** The one reply of a turn, or why there is none. */
  function Reply(activity: Activity, env: Env): (r: Result<string, TurnError>)
    ensures activity.activityType != MessageType ==>
      r == Success(activity.activityType + " event detected")
    ensures activity.activityType == MessageType && activity.text.None? ==>
      r == Failure(NullText)
  {
    if activity.activityType != MessageType then
      Success(activity.activityType + " event detected")
    else
      match activity.text
      case None => Failure(NullText)
      case Some(text) => Respond(Classify(text), env)
  }

  // ----- Effects of a turn -------------------------------------------------

  /** What a turn does that others can observe. */
  datatype Effect = SaveState | SendActivity(text: string)

  /** The effects of a turn in order: a message turn saves the conversation
      state first, then sends its reply if it has one; any other activity is
      answered without touching the state. */
  function TurnEffects(activity: Activity, env: Env): (effects: seq<Effect>)
    ensures |effects| <= 2
    ensures SaveState in effects <==> activity.activityType == MessageType
  {
    var send := match Reply(activity, env)
                case Success(reply) => [SendActivity(reply)]
                case Failure(_) => [];
    if activity.activityType == MessageType then [SaveState] + send else send
  }

  function CountSends(effects: seq<Effect>): (n: nat)
    ensures n <= |effects|
  {
    if effects == [] then 0
    else (if effects[0].SendActivity? then 1 else 0) + CountSends(effects[1..])
  }

  /** The turn's observable effects, recorded in the order they happen: state
      saves through the conversation-state accessor and replies sent through
      the turn context. */
  class TurnContext {
    var effects: seq<Effect>

    constructor ()
      ensures effects == []
    {
      effects := [];
    }

    /** `ConversationState.SaveChangesAsync`. */
    method SaveChanges()
      modifies this
      ensures effects == old(effects) + [SaveState]
    {
      effects := effects + [SaveState];
    }

    /** `SendActivityAsync`. */
    method Send(text: string)
      modifies this
      ensures effects == old(effects) + [SendActivity(text)]
    {
      effects := effects + [SendActivity(text)];
    }
  }

  /** `OnTurnAsync`: save, then reply, for a message; reply only otherwise.
      A failure ends the turn where it happens. */
  method OnTurn(context: TurnContext, activity: Activity, env: Env)
    returns (outcome: Result<string, TurnError>)
    modifies context
    ensures outcome == Reply(activity, env)
    ensures context.effects == old(context.effects) + TurnEffects(activity, env)
  {
    if activity.activityType == MessageType {
      context.SaveChanges();
      if activity.text.None? {
        return Failure(NullText);
      }
      var responseMessage := Respond(Classify(activity.text.value), env);
      if responseMessage.Failure? {
        return responseMessage;
      }
      context.Send(responseMessage.value);
      outcome := responseMessage;
    } else {
      outcome := Success(activity.activityType + " event detected");
      context.Send(outcome.value);
    }
  }

  // ----- The ladder as an ordered list of patterns ---------------------------

  /** A test on the lower-cased text: the whole text, or a prefix at index 0. */
  datatype Pattern = Exact(word: string) | Prefix(word: string)

  predicate Matches(p: Pattern, lower: string) {
    match p
    case Exact(word) => lower == word
    case Prefix(word) => StartsWith(lower, word)
  }

  /** The six tests of `OnTurnAsync`, in the order it tries them. */
  const Ladder: seq<Pattern> := [
    Exact("utc"), Exact("time"), Prefix("base64encode"),
    Prefix("base64decode"), Exact("guid"), Prefix("weather")]

  /** The position of the first pattern that matches, or |patterns| when none
      does. */
  function FirstMatch(patterns: seq<Pattern>, lower: string): (k: nat)
    ensures k <= |patterns|
    ensures k < |patterns| ==> Matches(patterns[k], lower)
    ensures forall j | 0 <= j < k :: !Matches(patterns[j], lower)
  {
    if patterns == [] then 0
    else if Matches(patterns[0], lower) then 0
    else 1 + FirstMatch(patterns[1..], lower)
  }

  /** The handler of each position of the ladder; one past the end is the
      echo. */
  function Handler(k: nat, text: string): Command
    requires k < |Ladder| ==> Matches(Ladder[k], ToLower(text))
  {
    if k == 0 then Utc
    else if k == 1 then Time
    else if k == 2 then EncodeText(Argument(text, "base64encode"))
    else if k == 3 then DecodeText(Argument(text, "base64decode"))
    else if k == 4 then NewGuid
    else if k == 5 then Weather(Argument(text, "weather"))
    else Echo(text)
  }

  /** `Classify` is the first-match policy over `Ladder`: the first test
      that holds decides the command, and the echo is taken when none does. */
  lemma ClassifyIsFirstMatch(text: string)
    ensures Classify(text) == Handler(FirstMatch(Ladder, ToLower(text)), text)
  {
    var lower := ToLower(text);
    var k := FirstMatch(Ladder, lower);
    var utc, time, enc := Matches(Ladder[0], lower), Matches(Ladder[1], lower), Matches(Ladder[2], lower);
    var dec, guid, weather := Matches(Ladder[3], lower), Matches(Ladder[4], lower), Matches(Ladder[5], lower);
    assert utc == (lower == "utc") && time == (lower == "time") && guid == (lower == "guid");
    assert enc == StartsWith(lower, "base64encode") && dec == StartsWith(lower, "base64decode");
    assert weather == StartsWith(lower, "weather");
    if k == 6 {
      assert !utc && !time && !enc && !dec && !guid && !weather;
    }
  }

  /** A text that passes a test agrees with the test's word at every
      position of the word. */
  lemma MatchedAt(p: Pattern, lower: string, k: nat)
    requires Matches(p, lower) && k < |p.word|
    ensures k < |lower| && lower[k] == p.word[k]
  {
    if p.Prefix? {
      assert lower[..|p.word|][k] == lower[k];
    }
  }

  /** No text passes two of the six tests, so today the order of the ladder
      does not change any outcome. */
  lemma LadderDisjoint(lower: string, i: nat, j: nat)
    requires i < j < |Ladder|
    ensures !(Matches(Ladder[i], lower) && Matches(Ladder[j], lower))
  {
    if Matches(Ladder[i], lower) && Matches(Ladder[j], lower) {
      var first := if i == 2 && j == 3 then 6 else 0;
      MatchedAt(Ladder[i], lower, first);
      MatchedAt(Ladder[j], lower, first);
    }
  }


  // ----- Each branch, in terms of the text ----------------------------------

  /** The exact commands compare the whole lower-cased text: no trimming, any
      letter case. */
  lemma ExactCommands(text: string)
    ensures Classify(text) == Utc <==> ToLower(text) == "utc"
    ensures Classify(text) == Time <==> ToLower(text) == "time"
    ensures Classify(text) == NewGuid <==> ToLower(text) == "guid"
  {
  }

  /** ... which is comparing the whole text with the word in any letter case. */
  lemma ExactCommandsIgnoreCase(text: string)
    ensures Classify(text) == Utc <==> EqualsIgnoringCase(text, "utc")
    ensures Classify(text) == Time <==> EqualsIgnoringCase(text, "time")
    ensures Classify(text) == NewGuid <==> EqualsIgnoringCase(text, "guid")
  {
    assert NoUpper("utc") && NoUpper("time") && NoUpper("guid");
    ToLowerEquals(text, "utc");
    ToLowerEquals(text, "time");
    ToLowerEquals(text, "guid");
    ExactCommands(text);
  }

  /** The prefix commands ignore letter case too: the text starts with the
      keyword in any letter case. */
  lemma PrefixCommandsIgnoreCase(text: string)
    ensures Classify(text).EncodeText? <==> |text| >= 12 && EqualsIgnoringCase(text[..12], "base64encode")
    ensures Classify(text).DecodeText? <==> |text| >= 12 && EqualsIgnoringCase(text[..12], "base64decode")
    ensures Classify(text).Weather? <==> |text| >= 7 && EqualsIgnoringCase(text[..7], "weather")
  {
    EncodeCommand(text);
    DecodeCommand(text);
    WeatherCommand(text);
    ToLowerStartsWith(text, "base64encode");
    ToLowerStartsWith(text, "base64decode");
    ToLowerStartsWith(text, "weather");
  }

  /** "base64encode" fires exactly when the lower-cased text starts with it
      at index 0; the argument is the original-case rest of the text, trimmed,
      and may be empty. */
  lemma EncodeCommand(text: string)
    ensures Classify(text).EncodeText? <==> StartsWith(ToLower(text), "base64encode")
    ensures Classify(text).EncodeText? ==> Classify(text).plainText == Trim(text[12..])
  {
  }

  /** "base64decode" likewise; it is tested after "base64encode", which no
      text starting with "base64decode" passes. */
  lemma DecodeCommand(text: string)
    ensures Classify(text).DecodeText? <==> StartsWith(ToLower(text), "base64decode")
    ensures Classify(text).DecodeText? ==> Classify(text).encoded == Trim(text[12..])
  {
    if StartsWith(ToLower(text), "base64decode") {
      LadderDisjoint(ToLower(text), 2, 3);
    }
  }

  /** "weather" likewise; it is tested last, and no text starting with
      "weather" passes an earlier test. */
  lemma WeatherCommand(text: string)
    ensures Classify(text).Weather? <==> StartsWith(ToLower(text), "weather")
    ensures Classify(text).Weather? ==> Classify(text).location == Trim(text[7..])
  {
    var lower := ToLower(text);
    if StartsWith(lower, "weather") {
      LadderDisjoint(lower, 2, 5);
      LadderDisjoint(lower, 3, 5);
    }
  }

  /** The echo is the default: it is taken exactly when none of the six tests
      holds, and it repeats the text as it came, not lower-cased. */
  lemma EchoIsDefault(text: string)
    ensures Classify(text).Echo? <==> forall k | 0 <= k < |Ladder| :: !Matches(Ladder[k], ToLower(text))
    ensures Classify(text).Echo? ==> Classify(text).text == text
  {
    ClassifyIsFirstMatch(text);
  }

  // ----- Effects --------------------------------------------------------------

  /** Any activity other than a message is answered with its type followed by
      " event detected", and the conversation state is not saved. */
  lemma OtherActivity(activity: Activity, env: Env)
    requires activity.activityType != MessageType
    ensures TurnEffects(activity, env) == [SendActivity(activity.activityType + " event detected")]
    ensures SaveState !in TurnEffects(activity, env)
  {
  }

  /** A message turn saves the state once, before anything is sent, and then
      sends one reply exactly when it has one. */
  lemma MessageSavesBeforeSending(activity: Activity, env: Env)
    requires activity.activityType == MessageType
    ensures var effects := TurnEffects(activity, env);
      && effects[0] == SaveState
      && SaveState !in effects[1..]
      && CountSends(effects) == (if Reply(activity, env).Success? then 1 else 0)
  {
    var effects := TurnEffects(activity, env);
    assert CountSends(effects) == CountSends(effects[1..]);
  }

  /** A turn sends at most one reply, and what it sends is its reply. */
  lemma AtMostOneReply(activity: Activity, env: Env)
    ensures CountSends(TurnEffects(activity, env)) <= 1
    ensures forall text :: SendActivity(text) in TurnEffects(activity, env) <==> Reply(activity, env) == Success(text)
  {
    var effects := TurnEffects(activity, env);
    if activity.activityType == MessageType {
      MessageSavesBeforeSending(activity, env);
    }
  }

  // ----- Replies of each branch ------------------------------------------------

  /** The reply to "base64encode ...": the base64 of the trimmed argument. */
  lemma EncodeReply(text: string, env: Env)
    requires StartsWith(ToLower(text), "base64encode")
    ensures Reply(Activity(MessageType, Some(text)), env)
      == Success("base 64 encoded=" + Util.Base64Encode(Trim(text[12..])) + NewLine)
  {
    EncodeCommand(text);
  }

  /** The reply to "base64decode ...": the decoded argument, or none at all
      exactly when the argument is not well-formed base64. */
  lemma DecodeReply(text: string, env: Env)
    requires StartsWith(ToLower(text), "base64decode")
    ensures var reply := Reply(Activity(MessageType, Some(text)), env);
      && (reply.Failure? <==> !Base64.WellFormed(Trim(text[12..])))
      && (reply.Success? ==>
            reply.value == "your base64 decode=" + Util.Base64Decode(Trim(text[12..])).value + NewLine)
  {
    DecodeCommand(text);
    var encoded := Trim(text[12..]);
    assert Reply(Activity(MessageType, Some(text)), env) == Respond(DecodeText(encoded), env);
    RespondDecode(encoded, env);
  }

  lemma RespondDecode(encoded: string, env: Env)
    ensures var reply := Respond(DecodeText(encoded), env);
      && (reply.Failure? <==> !Base64.WellFormed(encoded))
      && (reply.Success? ==> reply.value == "your base64 decode=" + Util.Base64Decode(encoded).value + NewLine)
  {
  }

  /** The reply to "weather ...": whatever the lookup for the trimmed argument
      returned, between fixed text. */
  lemma WeatherReply(text: string, env: Env)
    requires StartsWith(ToLower(text), "weather")
    ensures Reply(Activity(MessageType, Some(text)), env)
      == Success("Current weather in " + Util.GetWeather(env.fetch(Trim(text[7..]))) + NewLine)
  {
    WeatherCommand(text);
    var location := Trim(text[7..]);
    assert Classify(text) == Weather(location);
    assert Reply(Activity(MessageType, Some(text)), env) == Respond(Weather(location), env);
  }

  /** A message whose decode argument is not well-formed base64 saves the
      state and sends nothing. */
  lemma DecodeFailureSendsNothing(text: string, env: Env)
    requires StartsWith(ToLower(text), "base64decode")
    requires !Base64.WellFormed(Trim(text[12..]))
    ensures TurnEffects(Activity(MessageType, Some(text)), env) == [SaveState]
  {
    DecodeReply(text, env);
  }

  /** The reply to a text that passes none of the six tests repeats the
      text as it came. */
  lemma EchoReply(text: string, env: Env)
    requires forall k | 0 <= k < |Ladder| :: !Matches(Ladder[k], ToLower(text))
    ensures Reply(Activity(MessageType, Some(text)), env)
      == Success("What does , " + text + " mean ? " + NewLine)
  {
    EchoIsDefault(text);
    assert Classify(text) == Echo(text);
  }

  /** The replies to the exact commands carry the clock reading or the GUID
      that the turn was given. */
  lemma ExactReplies(text: string, env: Env)
    ensures var reply := Reply(Activity(MessageType, Some(text)), env);
      && (ToLower(text) == "utc" ==> reply == Success("Current time UTC=" + env.utcNow + NewLine))
      && (ToLower(text) == "time" ==> reply == Success("Current time=" + env.now + NewLine))
      && (ToLower(text) == "guid" ==> reply == Success("random GUID=" + env.newGuid + NewLine))
  {
    ExactCommands(text);
  }

  /** A failed weather request still produces a reply, and it starts with the
      error marker right after the fixed text. */
  lemma FailedLookupStillReplies(text: string, env: Env)
    requires StartsWith(ToLower(text), "weather")
    requires env.fetch(Trim(text[7..])).FetchFailed?
    ensures var reply := Reply(Activity(MessageType, Some(text)), env);
      reply.Success? && StartsWith(reply.value, "Current weather in , error=")
  {
    WeatherReply(text, env);
    WeatherLineMarked(Util.GetWeather(env.fetch(Trim(text[7..]))));
  }

  lemma WeatherLineMarked(summary: string)
    requires StartsWith(summary, Util.ErrorPrefix)
    ensures StartsWith("Current weather in " + summary + NewLine, "Current weather in , error=")
  {
    StartsWithInside("Current weather in ", summary, NewLine, Util.ErrorPrefix);
    assert "Current weather in " + Util.ErrorPrefix == "Current weather in , error=";
  }

  // ----- Examples ---------------------------------------------------------------

  /** Case does not matter to an exact command, a trailing space does. */
  lemma UtcExamples()
    ensures Classify("UTC") == Utc
    ensures Classify("uTc") == Utc
    ensures Classify("utc ") == Echo("utc ")
  {
    assert ToLower("UTC") == "utc";
    assert ToLower("uTc") == "utc";
    assert ToLower("utc ") == "utc ";
  }

  lemma OtherActivityExample(env: Env)
    ensures Reply(Activity("conversationUpdate", None), env) == Success("conversationUpdate event detected")
  {
    var a := Activity("conversationUpdate", None);
    assert a.activityType != MessageType;
    assert Reply(a, env) == Success(a.activityType + " event detected");
    assert a.activityType + " event detected" == "conversationUpdate event detected";
  }

  lemma EchoExample(env: Env)
    ensures Reply(Activity(MessageType, Some("banana")), env) == Success("What does , banana mean ? " + NewLine)
  {
    assert ToLower("banana") == "banana";
    assert !StartsWith("banana", "weather");
    assert Classify("banana") == Echo("banana");
    assert "What does , " + "banana" + " mean ? " == "What does , banana mean ? ";
  }
}
