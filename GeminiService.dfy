/** Translation of a failure raised by the generative-AI client into one of
    five fixed messages for the user. */
module GeminiService {
  import opened Strings

  /** What a `catch` receives: an `Error` with its message, or any other value. */
  datatype Thrown = ErrorObject(message: string) | NonError

  const ConfigMessage: string := "The AI service is not configured correctly. Please contact support."
  const DemandMessage: string :=
    "The AI service is currently experiencing high demand. Please try again in a few minutes."
  const UnavailableMessage: string :=
    "The AI styling service is temporarily unavailable. Please try again later."
  const BlockedMessage: string :=
    "The request was blocked by the AI. This can happen if an image is unsuitable for processing. Please try a different photo."
  const GenericMessage: string := "An unexpected error occurred with the AI service. Please try again."

  predicate IsUserMessage(s: string)
  {
    s == ConfigMessage || s == DemandMessage || s == UnavailableMessage || s == BlockedMessage || s == GenericMessage
  }

  /** `parseGeminiError`: an `Error`'s message is lower-cased and classified;
      anything that is not an `Error` gets the generic message. */
  function ParseGeminiError(error: Thrown): (m: string)
    ensures IsUserMessage(m)
    ensures error.NonError? ==> m == GenericMessage
  {
    match error
    case NonError => GenericMessage
    case ErrorObject(raw) => Classify(ToLower(raw))
  }

  /** The four keyword tests in turn, on the lower-cased message. */
  function Classify(message: string): (m: string)
    ensures IsUserMessage(m)
  {
    if Contains(message, "api key not valid") then ConfigMessage
    else if Contains(message, "quota") then DemandMessage
    else if Contains(message, "503") || Contains(message, "unavailable") then UnavailableMessage
    else if Contains(message, "invalid argument") || Contains(message, "request was blocked") then BlockedMessage
    else GenericMessage
  }

  /** One row of the decision table: any of `keys` selects `reply`. */
  datatype Rule = Rule(keys: seq<string>, reply: string)

  /** The decision table, highest priority first. */
  const Rules: seq<Rule> := [
    Rule(["api key not valid"], ConfigMessage),
    Rule(["quota"], DemandMessage),
    Rule(["503", "unavailable"], UnavailableMessage),
    Rule(["invalid argument", "request was blocked"], BlockedMessage)
  ]

  /** Whether the text contains at least one of the keywords. */
  function MatchesAny(text: string, keys: seq<string>): (b: bool)
    ensures b <==> exists i :: 0 <= i < |keys| && Contains(text, keys[i])
    decreases |keys|
  {
    if keys == [] then false else Contains(text, keys[0]) || MatchesAny(text, keys[1..])
  }

  /** Reference definition: the reply of the first rule that matches, or the
      generic message. */
  function FirstMatch(rules: seq<Rule>, text: string): string
    decreases |rules|
  {
    if rules == [] then GenericMessage
    else if MatchesAny(text, rules[0].keys) then rules[0].reply
    else FirstMatch(rules[1..], text)
  }

  /** The chain of tests is the decision table read top to bottom. */
  lemma ParseIsFirstMatch(raw: string)
    ensures ParseGeminiError(ErrorObject(raw)) == FirstMatch(Rules, ToLower(raw))
  {
    var t := ToLower(raw);
    assert MatchesAny(t, Rules[0].keys) == Contains(t, "api key not valid");
    assert MatchesAny(t, Rules[1].keys) == Contains(t, "quota");
    assert MatchesAny(t, Rules[2].keys) == (Contains(t, "503") || Contains(t, "unavailable"));
    assert MatchesAny(t, Rules[3].keys) == (Contains(t, "invalid argument") || Contains(t, "request was blocked"));
    var r1, r2, r3, r4 := Rules[1..], Rules[2..], Rules[3..], Rules[4..];
    assert r1[0] == Rules[1] && r1[1..] == r2;
    assert r2[0] == Rules[2] && r2[1..] == r3;
    assert r3[0] == Rules[3] && r3[1..] == r4;
    assert r4 == [];
    assert FirstMatch(r4, t) == GenericMessage;
    assert FirstMatch(r3, t) == if MatchesAny(t, Rules[3].keys) then BlockedMessage else GenericMessage;
    assert FirstMatch(r2, t) == if MatchesAny(t, Rules[2].keys) then UnavailableMessage else FirstMatch(r3, t);
    assert FirstMatch(r1, t) == if MatchesAny(t, Rules[1].keys) then DemandMessage else FirstMatch(r2, t);
  }

  /** The first matching rule decides, whatever later rules would say. */
  lemma {:induction false} FirstRuleWins(rules: seq<Rule>, text: string, r: nat)
    requires r < |rules| && MatchesAny(text, rules[r].keys)
    requires forall q :: 0 <= q < r ==> !MatchesAny(text, rules[q].keys)
    ensures FirstMatch(rules, text) == rules[r].reply
    decreases r
  {
    if r > 0 {
      assert !MatchesAny(text, rules[0].keys);
      FirstRuleWins(rules[1..], text, r - 1);
    }
  }

  /** With no matching rule the reply is the generic one. */
  lemma {:induction false} NoRuleMatches(rules: seq<Rule>, text: string)
    requires forall q :: 0 <= q < |rules| ==> !MatchesAny(text, rules[q].keys)
    ensures FirstMatch(rules, text) == GenericMessage
    decreases |rules|
  {
    if rules != [] {
      assert !MatchesAny(text, rules[0].keys);
      NoRuleMatches(rules[1..], text);
    }
  }

  /** The reply does not depend on letter case. */
  lemma CaseInsensitive(raw: string)
    ensures ParseGeminiError(ErrorObject(ToUpper(raw))) == ParseGeminiError(ErrorObject(raw))
    ensures ParseGeminiError(ErrorObject(ToLower(raw))) == ParseGeminiError(ErrorObject(raw))
  {
    SameLowerCase(raw);
    assert ToLower(ToUpper(raw)) == ToLower(raw);
  }

  /** Every keyword is written in lower case, so it is found in any casing. */
  lemma KeywordsAreLowerCase(r: nat, i: nat)
    requires r < |Rules| && i < |Rules[r].keys|
    ensures ToLower(Rules[r].keys[i]) == Rules[r].keys[i]
  {
    var k := Rules[r].keys[i];
    if r == 0 {
      assert k == "api key not valid" && NoUpper("api key not valid");
    } else if r == 1 {
      assert k == "quota" && NoUpper("quota");
    } else if r == 2 && i == 0 {
      assert k == "503" && NoUpper("503");
    } else if r == 2 {
      assert k == "unavailable" && NoUpper("unavailable");
    } else if i == 0 {
      assert k == "invalid argument" && NoUpper("invalid argument");
    } else {
      assert k == "request was blocked" && NoUpper("request was blocked");
    }
    LowerOfNoUpper(k);
  }

  /** A message carrying a keyword of rule `r` anywhere, with any text
      around it, gets that rule's reply unless an earlier rule matches. */
  lemma KeywordSelectsReply(pre: string, r: nat, i: nat, post: string)
    requires r < |Rules| && i < |Rules[r].keys|
    requires forall q :: 0 <= q < r ==> !MatchesAny(ToLower(pre + Rules[r].keys[i] + post), Rules[q].keys)
    ensures ParseGeminiError(ErrorObject(pre + Rules[r].keys[i] + post)) == Rules[r].reply
  {
    var k := Rules[r].keys[i];
    var raw := pre + k + post;
    ToLowerAppend(pre + k, post);
    ToLowerAppend(pre, k);
    KeywordsAreLowerCase(r, i);
    ContainsInfix(ToLower(pre), k, ToLower(post));
    assert Contains(ToLower(raw), Rules[r].keys[i]);
    ParseIsFirstMatch(raw);
    FirstRuleWins(Rules, ToLower(raw), r);
  }

  /** An invalid API key is reported as a configuration problem even when the
      message also mentions quota, availability or blocking. */
  lemma ApiKeyTakesPrecedence(pre: string, post: string)
    ensures ParseGeminiError(ErrorObject(pre + "api key not valid" + post)) == ConfigMessage
  {
    KeywordSelectsReply(pre, 0, 0, post);
  }

  /** A message whose lower-cased form holds no keyword gets the generic reply. */
  lemma NoKeywordIsGeneric(raw: string)
    requires forall q :: 0 <= q < |Rules| ==> !MatchesAny(ToLower(raw), Rules[q].keys)
    ensures ParseGeminiError(ErrorObject(raw)) == GenericMessage
  {
    ParseIsFirstMatch(raw);
    NoRuleMatches(Rules, ToLower(raw));
  }
}
