/**
 * `extract_customer_filters_from_message` of api/utils/customer_filters.py:
 * the message is wrapped in a fixed prompt and sent to a chat model, and the
 * reply is scraped for the text from its first `{` to its last `}`, which is
 * parsed as JSON. No match, or a parse failure, yields the empty mapping.
 *
 * The chat model is the parameter `invoke` (a failure is the model call
 * raising) and the JSON parser is the parameter `loads` (`None` is the parser
 * raising). The scraped text starts with `{` and ends with `}`, so whatever
 * parses is a JSON object, modelled as a map from keys to values of type `V`.
 */
module CustomerFilters {
  import opened Wrappers

  const SystemPrompt: string :=
    "You are an assistant that extracts filter parameters for a customer table. "
    + "Given a user message, return a JSON object with any of these fields if present: "
    + "gender, riskProfile, aum_min, aum_max, age_min, age_max, search, sort_by, sort_dir. "
    + "If a field is not mentioned, omit it. Only return the JSON object."

  const MessageLabel: string := "\nUser message: "
  const ReplyLabel: string := "\nJSON:"

  /** The prompt sent to the model: the instructions, then the user's message, then the reply cue. */
  function Prompt(message: string): string
  {
    SystemPrompt + MessageLabel + message + ReplyLabel
  }

  /** Different messages give different prompts: the model always sees the whole message. */
  lemma PromptInjective(m1: string, m2: string)
    requires Prompt(m1) == Prompt(m2)
    ensures m1 == m2
  {
    var n := |SystemPrompt + MessageLabel|;
    assert |m1| == |m2|;
    assert m1 == Prompt(m1)[n..n + |m1|];
    assert m2 == Prompt(m2)[n..n + |m2|];
  }

  // ---------------------------------------------------------------------
  // The greedy match of `{.*}` under `re.DOTALL`
  // ---------------------------------------------------------------------

  /** The first position of `ch` in `s`, if any. */
  function FirstIndexOf(s: string, ch: char): (r: Option<nat>)
    ensures r.None? <==> ch !in s
    ensures r.Some? ==> r.value < |s| && s[r.value] == ch && ch !in s[..r.value]
  {
    if s == [] then None
    else if s[0] == ch then Some(0)
    else
      assert s == [s[0]] + s[1..];
      match FirstIndexOf(s[1..], ch)
      case None => None
      case Some(i) =>
        assert s[..i + 1] == [s[0]] + s[1..][..i];
        Some(i + 1)
  }

  /** The last position of `ch` in `s`, if any. */
  function LastIndexOf(s: string, ch: char): (r: Option<nat>)
    ensures r.None? <==> ch !in s
    ensures r.Some? ==> r.value < |s| && s[r.value] == ch && ch !in s[r.value + 1..]
  {
    if s == [] then None
    else if s[|s| - 1] == ch then Some(|s| - 1)
    else
      var init := s[..|s| - 1];
      assert s == init + [s[|s| - 1]];
      match LastIndexOf(init, ch)
      case None => None
      case Some(j) =>
        assert s[j + 1..] == init[j + 1..] + [s[|s| - 1]];
        Some(j)
  }

  /**
   * Where `re.search(r'{.*}', reply, re.DOTALL)` matches: the first `{` and the
   * last `}`, when that `}` lies after that `{`.
   */
  function MatchBounds(s: string): (r: Option<(nat, nat)>)
    ensures r.Some? ==> r.value.0 < r.value.1 < |s| && s[r.value.0] == '{' && s[r.value.1] == '}'
    ensures r.Some? ==> '{' !in s[..r.value.0] && '}' !in s[r.value.1 + 1..]
  {
    match FirstIndexOf(s, '{')
    case None => None
    case Some(i) =>
      match LastIndexOf(s, '}')
      case None => None
      case Some(j) => if i < j then Some((i, j)) else None
  }

  /** A `{` followed, somewhere later, by a `}`. */
  predicate HasBracePair(s: string)
  {
    exists i, j :: 0 <= i < j < |s| && s[i] == '{' && s[j] == '}'
  }

  /** The regex matches exactly when some `{` has a `}` after it. */
  lemma MatchIffBracePair(s: string)
    ensures MatchBounds(s).Some? <==> HasBracePair(s)
  {
    if MatchBounds(s).Some? {
      var (i, j) := MatchBounds(s).value;
      assert 0 <= i < j < |s| && s[i] == '{' && s[j] == '}';
    }
    if HasBracePair(s) {
      var i, j :| 0 <= i < j < |s| && s[i] == '{' && s[j] == '}';
      MatchCovers(s, i, j);
    }
  }

  /**
   * The match is the leftmost and longest one: it starts at a `{` with no `{`
   * before it, ends at a `}` with no `}` after it, and so spans every brace
   * pair of the reply, newlines included.
   */
  lemma MatchCovers(s: string, i: int, j: int)
    requires 0 <= i < j < |s| && s[i] == '{' && s[j] == '}'
    ensures MatchBounds(s).Some?
    ensures MatchBounds(s).value.0 <= i && j <= MatchBounds(s).value.1
  {
  }

  /** The matched text: from the first `{` through the last `}`. */
  function JsonSpan(s: string): (r: string)
    requires MatchBounds(s).Some?
    ensures |r| >= 2 && r[0] == '{' && r[|r| - 1] == '}'
  {
    var (i, j) := MatchBounds(s).value;
    s[i..j + 1]
  }

  /** The reply is the text before the match, the match, and the text after it; no `{` comes before it and no `}` after it. */
  lemma SpanInContext(s: string)
    requires MatchBounds(s).Some?
    ensures var (i, j) := MatchBounds(s).value;
      s == s[..i] + JsonSpan(s) + s[j + 1..] && '{' !in s[..i] && '}' !in s[j + 1..]
  {
    var (i, j) := MatchBounds(s).value;
    assert s == s[..i] + s[i..j + 1] + s[j + 1..];
  }

  /** Two objects in one reply are taken as one match running from the first `{` to the last `}`. */
  lemma GreedyAcrossObjects()
    ensures MatchBounds("a{\"x\": 1}\nb{\"y\": 2}c").Some?
    ensures JsonSpan("a{\"x\": 1}\nb{\"y\": 2}c") == "{\"x\": 1}\nb{\"y\": 2}"
  {
    TwoObjectsBounds("a{\"x\": 1}\nb{\"y\": 2}c");
    TwoObjectsMerged("a{\"x\": 1}\nb{\"y\": 2}c");
  }

  /** A position holding `ch` with no `ch` after it is the last position of `ch`. */
  lemma LastIndexAt(s: string, ch: char, j: nat)
    requires j < |s| && s[j] == ch && ch !in s[j + 1..]
    ensures LastIndexOf(s, ch) == Some(j)
  {
    assert s[j] in s;
    var r := LastIndexOf(s, ch).value;
    assert forall x :: j < x < |s| ==> s[j + 1..][x - j - 1] == s[x];
    assert forall x :: r < x < |s| ==> s[r + 1..][x - r - 1] == s[x];
  }

  lemma TwoObjectsBounds(s: string)
    requires s == "a{\"x\": 1}\nb{\"y\": 2}c"
    ensures MatchBounds(s) == Some((1, 18))
  {
    FirstOfTwoOpens(s);
    assert |s| == 20 && s[18] == '}' && s[19] == 'c';
    assert s[19..] == [s[19]];
    LastIndexAt(s, '}', 18);
  }

  lemma TwoObjectsMerged(s: string)
    requires s == "a{\"x\": 1}\nb{\"y\": 2}c"
    ensures s[1..19] == "{\"x\": 1}\nb{\"y\": 2}"
  {
  }

  // ---------------------------------------------------------------------
  // The extraction
  // ---------------------------------------------------------------------

  /** The `try` block: scrape the reply, parse the match, and fall back to `{}`. */
  function ParseReply<V>(reply: string, loads: string -> Option<map<string, V>>): map<string, V>
  {
    if MatchBounds(reply).None? then map[]
    else match loads(JsonSpan(reply))
      case None => map[]
      case Some(obj) => obj
  }

  /**
   * `extract_customer_filters_from_message`: the model call sits outside the
   * `try`, so its failure is the function's failure; the reply is then scraped
   * and parsed without ever failing.
   */
  function ExtractFilters<V, E>(message: string, invoke: string -> Result<string, E>,
                                loads: string -> Option<map<string, V>>): Result<map<string, V>, E>
  {
    match invoke(Prompt(message))
    case Failure(e) => Failure(e)
    case Success(reply) => Success(ParseReply(reply, loads))
  }

  /** A reply in which no `{` has a `}` after it gives the empty mapping, whatever the parser. */
  lemma NoMatchGivesEmpty<V>(reply: string, loads: string -> Option<map<string, V>>)
    requires !HasBracePair(reply)
    ensures ParseReply(reply, loads) == map[]
  {
    MatchIffBracePair(reply);
  }

  /** A matched text that does not parse gives the empty mapping instead of an error. */
  lemma ParseFailureGivesEmpty<V>(reply: string, loads: string -> Option<map<string, V>>)
    requires MatchBounds(reply).Some? && loads(JsonSpan(reply)).None?
    ensures ParseReply(reply, loads) == map[]
  {
  }

  /** A matched text that parses is returned as parsed: no key is dropped, whether or not the prompt names it. */
  lemma ParsedObjectReturned<V>(reply: string, loads: string -> Option<map<string, V>>, obj: map<string, V>)
    requires MatchBounds(reply).Some? && loads(JsonSpan(reply)) == Some(obj)
    ensures ParseReply(reply, loads) == obj
  {
  }

  /** Only the model call can make the extraction fail, and then it fails with the model's error. */
  lemma ModelFailurePropagates<V, E>(message: string, invoke: string -> Result<string, E>,
                                     loads: string -> Option<map<string, V>>)
    ensures ExtractFilters(message, invoke, loads).Failure? <==> invoke(Prompt(message)).Failure?
    ensures invoke(Prompt(message)).Failure? ==>
      ExtractFilters(message, invoke, loads).error == invoke(Prompt(message)).error
    ensures invoke(Prompt(message)).Success? ==>
      ExtractFilters(message, invoke, loads).value == ParseReply(invoke(Prompt(message)).value, loads)
  {
  }

  /**
   * The extraction with the model call inside the catch as well: a failing
   * model call also gives the empty mapping, so the extraction always returns
   * a mapping, as its result type `dict` says.
   */
  function ExtractFiltersCaught<V, E>(message: string, invoke: string -> Result<string, E>,
                                      loads: string -> Option<map<string, V>>): map<string, V>
  {
    match invoke(Prompt(message))
    case Failure(_) => map[]
    case Success(reply) => ParseReply(reply, loads)
  }

  /** The caught extraction returns what the extraction returns when the model answers, and the empty mapping otherwise. */
  lemma CaughtAgrees<V, E>(message: string, invoke: string -> Result<string, E>,
                           loads: string -> Option<map<string, V>>)
    ensures ExtractFilters(message, invoke, loads).Success? ==>
      ExtractFiltersCaught(message, invoke, loads) == ExtractFilters(message, invoke, loads).value
    ensures ExtractFilters(message, invoke, loads).Failure? ==> ExtractFiltersCaught(message, invoke, loads) == map[]
  {
  }

  // ---------------------------------------------------------------------
  // The first JSON object, as the comment at the regex describes it
  // ---------------------------------------------------------------------

  /** The change in brace depth that one character makes. */
  function Step(ch: char): int
  {
    if ch == '{' then 1 else if ch == '}' then -1 else 0
  }

  /** The brace depth that `s[k..m]` adds: the `{` it opens minus the `}` it closes. */
  function DepthBetween(s: string, k: nat, m: nat): int
    requires k <= m <= |s|
    decreases m - k
  {
    if k == m then 0 else Step(s[k]) + DepthBetween(s, k + 1, m)
  }

  /**
   * Scanning `s` from position `k` at brace depth `d`, the position at which
   * the depth first comes back to 0: there, a `}` closes the object.
   */
  function CloseFrom(s: string, k: nat, d: int): (r: Option<nat>)
    requires d >= 1
    ensures r.Some? ==> k <= r.value < |s| && s[r.value] == '}' && d + DepthBetween(s, k, r.value + 1) == 0
    ensures r.Some? ==> forall m :: k < m <= r.value ==> d + DepthBetween(s, k, m) > 0
    ensures r.None? ==> forall m :: k < m <= |s| ==> d + DepthBetween(s, k, m) > 0
    decreases |s| - k
  {
    if k >= |s| then None
    else if d + Step(s[k]) == 0 then Some(k)
    else CloseFrom(s, k + 1, d + Step(s[k]))
  }

  /**
   * Where the first JSON object of the reply lies: `s[i..j + 1]` runs from the
   * first `{` to the `}` that first brings the brace depth back to 0. Braces
   * inside JSON strings are counted like any other.
   */
  function FirstObjectBounds(s: string): (r: Option<(nat, nat)>)
    ensures r.Some? ==> r.value.0 < r.value.1 < |s| && s[r.value.0] == '{' && '{' !in s[..r.value.0]
    ensures r.Some? ==> s[r.value.1] == '}' && DepthBetween(s, r.value.0, r.value.1 + 1) == 0
    ensures r.Some? ==> forall m :: r.value.0 < m <= r.value.1 ==> DepthBetween(s, r.value.0, m) > 0
    ensures r.None? ==> '{' !in s || forall m :: FirstIndexOf(s, '{').value < m <= |s| ==> DepthBetween(s, FirstIndexOf(s, '{').value, m) > 0
  {
    match FirstIndexOf(s, '{')
    case None => None
    case Some(i) =>
      match CloseFrom(s, i + 1, 1)
      case None => None
      case Some(j) => Some((i, j))
  }

  /** The extraction on the first object: it is parsed alone, with the empty mapping as the fallback. */
  function ParseFirstObject<V>(reply: string, loads: string -> Option<map<string, V>>): map<string, V>
  {
    match FirstObjectBounds(reply)
    case None => map[]
    case Some((i, j)) =>
      match loads(reply[i..j + 1])
      case None => map[]
      case Some(obj) => obj
  }

  /** A first object that parses is returned as parsed. */
  lemma FirstObjectParsed<V>(reply: string, loads: string -> Option<map<string, V>>, obj: map<string, V>)
    requires FirstObjectBounds(reply).Some?
    requires loads(reply[FirstObjectBounds(reply).value.0..FirstObjectBounds(reply).value.1 + 1]) == Some(obj)
    ensures ParseFirstObject(reply, loads) == obj
  {
  }

  /** The first object starts where the greedy match starts and ends no later than it. */
  lemma FirstObjectWithinMatch(s: string)
    requires FirstObjectBounds(s).Some?
    ensures MatchBounds(s).Some?
    ensures MatchBounds(s).value.0 == FirstObjectBounds(s).value.0
    ensures FirstObjectBounds(s).value.1 <= MatchBounds(s).value.1
  {
    var (i, j) := FirstObjectBounds(s).value;
    MatchCovers(s, i, j);
    forall x | 0 <= x < i ensures s[x] != '{' {
      assert s[..i][x] == s[x];
    }
  }

  /** A position holding `ch` with no `ch` before it is the first position of `ch`. */
  lemma FirstIndexAt(s: string, ch: char, i: nat)
    requires i < |s| && s[i] == ch && ch !in s[..i]
    ensures FirstIndexOf(s, ch) == Some(i)
  {
    assert s[i] in s;
    var r := FirstIndexOf(s, ch).value;
    assert forall x :: 0 <= x < i ==> s[..i][x] == s[x];
    assert forall x :: 0 <= x < r ==> s[..r][x] == s[x];
  }

  /** Text without braces up to a `}` closes an object opened just before it. */
  lemma {:induction false} CloseAfterPlainText(s: string, k: nat, m: nat)
    requires k <= m < |s| && s[m] == '}'
    requires forall x :: k <= x < m ==> Step(s[x]) == 0
    ensures CloseFrom(s, k, 1) == Some(m)
    decreases m - k
  {
    if k < m {
      CloseAfterPlainText(s, k + 1, m);
    }
  }

  lemma FirstOfTwoOpens(s: string)
    requires s == "a{\"x\": 1}\nb{\"y\": 2}c"
    ensures FirstIndexOf(s, '{') == Some(1)
  {
    assert s[..1] == "a";
    FirstIndexAt(s, '{', 1);
  }

  lemma FirstOfTwoCloses(s: string)
    requires s == "a{\"x\": 1}\nb{\"y\": 2}c"
    ensures CloseFrom(s, 2, 1) == Some(8)
  {
    assert s[2] == '"' && s[3] == 'x' && s[4] == '"' && s[5] == ':' && s[6] == ' ' && s[7] == '1' && s[8] == '}';
    forall x | 2 <= x < 8 ensures Step(s[x]) == 0 {
      assert s[x] in "\"x\": 1";
    }
    CloseAfterPlainText(s, 2, 8);
  }

  lemma FirstObjectOf(s: string)
    requires s == "a{\"x\": 1}\nb{\"y\": 2}c"
    ensures FirstObjectBounds(s) == Some((1, 8))
  {
    FirstOfTwoOpens(s);
    FirstOfTwoCloses(s);
  }

  /** The first object of the two-object reply is `{"x": 1}`. */
  lemma FirstObjectOfTwo()
    ensures FirstObjectBounds("a{\"x\": 1}\nb{\"y\": 2}c") == Some((1, 8))
  {
    FirstObjectOf("a{\"x\": 1}\nb{\"y\": 2}c");
  }

  /**
   * A parser that rejects the merged text of two objects but accepts the first
   * one makes the extraction as written return nothing, while the extraction
   * on the first object returns that object.
   */
  lemma GreedyLosesFirstObject<V>(loads: string -> Option<map<string, V>>, obj: map<string, V>)
    requires loads("{\"x\": 1}\nb{\"y\": 2}") == None
    requires loads("{\"x\": 1}") == Some(obj)
    ensures ParseReply("a{\"x\": 1}\nb{\"y\": 2}c", loads) == map[]
    ensures ParseFirstObject("a{\"x\": 1}\nb{\"y\": 2}c", loads) == obj
  {
    GreedyAcrossObjects();
    ParseFailureGivesEmpty("a{\"x\": 1}\nb{\"y\": 2}c", loads);
    FirstObjectOfTwo();
    FirstOfTwoSpan("a{\"x\": 1}\nb{\"y\": 2}c");
    FirstObjectParsed("a{\"x\": 1}\nb{\"y\": 2}c", loads, obj);
  }

  lemma FirstOfTwoSpan(s: string)
    requires s == "a{\"x\": 1}\nb{\"y\": 2}c"
    ensures s[1..9] == "{\"x\": 1}"
  {
  }
}
