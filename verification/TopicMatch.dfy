/** MQTT topic filters: the matching loop of mqttHelpers.cpp. */
module TopicMatch {
  import opened Common
  import opened Text

  const SEPARATORS := "/\n"

  /** Filter levels against topic levels. */
  function MatchLevels(filter: seq<string>, topic: seq<string>): bool
  {
    if filter == [] || topic == [] then filter == topic
    else filter[0] == "#" || ((filter[0] == topic[0] || filter[0] == "+") && MatchLevels(filter[1..], topic[1..]))
  }

  function Matches(filter: string, topic: string): bool
  {
    MatchLevels(Split(Some(filter), SEPARATORS), Split(Some(topic), SEPARATORS))
  }

  /** `matchTopic` */
  method MatchTopic(filter: string, topic: string) returns (r: bool)
    ensures r == Matches(filter, topic)
  {
    var filterCursor: Option<string>, topicCursor: Option<string> := Some(filter), Some(topic);
    while true
      invariant Matches(filter, topic) == MatchLevels(Split(filterCursor, SEPARATORS), Split(topicCursor, SEPARATORS))
      decreases Left(filterCursor) + Left(topicCursor)
    {
      var f, t := Strsep(filterCursor, SEPARATORS), Strsep(topicCursor, SEPARATORS);
      if f.token.None? && t.token.None? {
        return true;
      }
      if t.token.Some? && f.token.None? {
        return false;
      }
      if t.token.None? && f.token.Some? {
        return false;
      }
      if f.token.value == "#" {
        return true;
      }
      if f.token.value != t.token.value && f.token.value != "+" {
        return false;
      }
      filterCursor, topicCursor := f.rest, t.rest;
    }
  }

  // ----- What matching means ---------------------------------------------------------------------------

  predicate LevelMatches(filter: string, level: string)
  {
    filter == level || filter == "+"
  }

  /** The index of the first `#` level, or the number of levels. */
  function FirstHash(filter: seq<string>): (h: nat)
    ensures h <= |filter| && (h < |filter| ==> filter[h] == "#")
    ensures forall i :: 0 <= i < h ==> filter[i] != "#"
  {
    if filter == [] || filter[0] == "#" then 0 else 1 + FirstHash(filter[1..])
  }

  /** Levels match one for one up to the first `#`, which takes one or more remaining levels; without
      a `#` there are as many levels in the topic as in the filter. */
  lemma {:induction false} MatchLevelsIff(filter: seq<string>, topic: seq<string>)
    ensures var h := FirstHash(filter);
            MatchLevels(filter, topic) <==>
              && (if h < |filter| then |topic| > h else |topic| == |filter|)
              && forall i :: 0 <= i < h ==> LevelMatches(filter[i], topic[i])
  {
    if filter == [] || topic == [] || filter[0] == "#" {
    } else {
      var f, t := filter[1..], topic[1..];
      MatchLevelsIff(f, t);
      var h := FirstHash(filter);
      assert forall i :: 1 <= i < h ==> filter[i] == f[i - 1];
      if |topic| >= h {
        assert forall i :: 1 <= i < h ==> topic[i] == t[i - 1];
        assert (forall i :: 0 <= i < h ==> LevelMatches(filter[i], topic[i])) <==>
               LevelMatches(filter[0], topic[0]) && forall i :: 0 <= i < h - 1 ==> LevelMatches(f[i], t[i]) by {
          assert forall i :: 0 <= i < h - 1 ==> f[i] == filter[i + 1] && t[i] == topic[i + 1];
        }
      }
    }
  }

  /** `#` does not match the parent level: a filter `x/#` never matches a topic that `x` matches. */
  lemma HashExcludesParent(filter: seq<string>, topic: seq<string>)
    requires MatchLevels(filter, topic) && FirstHash(filter) == |filter|
    ensures !MatchLevels(filter + ["#"], topic)
  {
    MatchLevelsIff(filter, topic);
    MatchLevelsIff(filter + ["#"], topic);
    FirstHashAppend(filter);
  }

  lemma {:induction false} FirstHashAppend(filter: seq<string>)
    requires FirstHash(filter) == |filter|
    ensures FirstHash(filter + ["#"]) == |filter|
  {
    if filter == [] {
    } else {
      assert (filter + ["#"])[1..] == filter[1..] + ["#"];
      FirstHashAppend(filter[1..]);
    }
  }

  /** A topic without wildcard levels is the only topic that it matches as a filter, level for level. */
  lemma PlainMatchesItself(filter: seq<string>, topic: seq<string>)
    requires forall i :: 0 <= i < |filter| ==> filter[i] != "#" && filter[i] != "+"
    ensures MatchLevels(filter, topic) <==> filter == topic
  {
    MatchLevelsIff(filter, topic);
    if MatchLevels(filter, topic) {
      assert forall i :: 0 <= i < |filter| ==> LevelMatches(filter[i], topic[i]);
    }
  }

  // ----- The text of filters and topics ----------------------------------------------------------------

  /** Levels without a separator. */
  predicate Levels(parts: seq<string>)
  {
    parts != [] && forall i, j :: 0 <= i < |parts| && 0 <= j < |parts[i]| ==> parts[i][j] != '/' && parts[i][j] != '\n'
  }

  lemma SplitsAt(parts: seq<string>, delim: char)
    requires Levels(parts) && (delim == '/' || delim == '\n')
    ensures Split(Some(Join(parts, delim)), SEPARATORS) == parts
  {
    SplitJoin(parts, delim, SEPARATORS);
  }

  /** A slash separates levels, in filters and in topics. */
  lemma SlashSeparates(f: seq<string>, t: seq<string>)
    requires Levels(f) && Levels(t)
    ensures Matches(Join(f, '/'), Join(t, '/')) <==> MatchLevels(f, t)
  {
    SplitsAt(f, '/');
    SplitsAt(t, '/');
  }

  /** So does the end of a line. */
  lemma NewlineSeparates(f: seq<string>, t: seq<string>)
    requires Levels(f) && Levels(t)
    ensures Matches(Join(f, '\n'), Join(t, '\n')) <==> MatchLevels(f, t)
    ensures Matches(Join(f, '/'), Join(t, '\n')) <==> MatchLevels(f, t)
  {
    SplitsAt(f, '/');
    SplitsAt(f, '\n');
    SplitsAt(t, '\n');
  }

  predicate Plain(levels: seq<string>)
  {
    forall i :: 0 <= i < |levels| ==> levels[i] != "#" && levels[i] != "+"
  }

  /** Plain levels match themselves, and the rest of the filter the rest of the topic. */
  lemma {:induction false} PlainPrefix(before: seq<string>, filter: seq<string>, topic: seq<string>)
    requires Plain(before)
    ensures MatchLevels(before + filter, topic) <==>
              |topic| >= |before| && topic[..|before|] == before && MatchLevels(filter, topic[|before|..])
  {
    if before == [] {
      assert before + filter == filter && topic[0..] == topic;
    } else if topic == [] {
    } else {
      var b, t := before[1..], topic[1..];
      assert (before + filter)[1..] == b + filter;
      PlainPrefix(b, filter, t);
      if |t| >= |b| {
        assert topic[|before|..] == t[|b|..];
        assert topic[..|before|] == [topic[0]] + t[..|b|] && before == [before[0]] + b;
      }
    }
  }

  /** `+` stands for one level, whatever it is, between levels that are the same. */
  lemma PlusIsOneLevel(before: seq<string>, after: seq<string>, topic: seq<string>)
    requires Plain(before) && Plain(after)
    ensures MatchLevels(before + (["+"] + after), topic) <==>
              |topic| > |before| && topic[..|before|] == before && topic[|before| + 1..] == after
  {
    PlainPrefix(before, ["+"] + after, topic);
    if |topic| > |before| {
      var rest := topic[|before|..];
      assert (["+"] + after)[1..] == after && rest[1..] == topic[|before| + 1..];
      PlainMatchesItself(after, rest[1..]);
    }
  }

  /** `#` stands for all levels from there on, of which there has to be one. */
  lemma HashIsTheRest(before: seq<string>, after: seq<string>, topic: seq<string>)
    requires Plain(before)
    ensures MatchLevels(before + (["#"] + after), topic) <==> |topic| > |before| && topic[..|before|] == before
  {
    PlainPrefix(before, ["#"] + after, topic);
  }
}
