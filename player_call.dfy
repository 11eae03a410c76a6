/** The chapter payload locator of `extract_book_player_args`: the regular expression
    `var player = new BookPlayer\((.*)\);` applied to the raw page text, and its capture
    group. The regex engine is leftmost-first: the match starting earliest wins, and from
    there the greedy `.*` (which never crosses a line feed) stretches the group to the
    LAST `);` on that line. */
module PlayerCall {
  import opened Wrappers

  const Prefix := "var player = new BookPlayer("
  const Close := ");"

  /** `pat` occurs in `text` at position `i`. */
  predicate OccursAt(text: string, i: int, pat: string) {
    0 <= i && i + |pat| <= |text| && text[i..i + |pat|] == pat
  }

  /** A group starting at `from` can end at `close`: `(.*)` takes every character up to
      `close`, none of them a line feed, and `\);` follows. */
  predicate GroupEndsAt(text: string, from: int, close: int) {
    && OccursAt(text, close, Close)
    && 0 <= from <= close
    && '\n' !in text[from..close]
  }

  /** The regex matches at `start` with its group ending at `close`. */
  predicate MatchesAt(text: string, start: int, close: int) {
    OccursAt(text, start, Prefix) && GroupEndsAt(text, start + |Prefix|, close)
  }

  /** Where the regex matched: the start of the prefix and the start of the final `);`. */
  datatype Span = Span(start: nat, close: nat)

  /** The first line feed at or after `i`, or the end of the text. */
  function LineEnd(text: string, i: nat): (e: nat)
    requires i <= |text|
    ensures i <= e <= |text|
    ensures '\n' !in text[i..e]
    ensures e < |text| ==> text[e] == '\n'
    decreases |text| - i
  {
    if i == |text| || text[i] == '\n' then i
    else
      var e := LineEnd(text, i + 1);
      assert text[i..e] == [text[i]] + text[i + 1..e];
      e
  }

  /** The last `);` lying wholly inside `text[from..end]`, found by scanning back from `end`. */
  function LastCloseBefore(text: string, from: nat, end: nat): (c: Option<nat>)
    requires from <= end <= |text|
    ensures c.Some? ==> from <= c.value && c.value + |Close| <= end && OccursAt(text, c.value, Close)
    ensures c.Some? ==> forall k :: c.value < k && k + |Close| <= end ==> !OccursAt(text, k, Close)
    ensures c.None? ==> forall k :: from <= k && k + |Close| <= end ==> !OccursAt(text, k, Close)
    decreases end
  {
    if end < from + |Close| then None
    else if OccursAt(text, end - |Close|, Close) then Some(end - |Close|)
    else LastCloseBefore(text, from, end - 1)
  }

  /** Where the greedy group that starts at `from` ends: at the last `);` before the end of
      the line. */
  function GroupEnd(text: string, from: nat): (c: Option<nat>)
    requires from <= |text|
    ensures c.Some? ==> GroupEndsAt(text, from, c.value)
    ensures c.Some? ==> forall k :: c.value < k ==> !GroupEndsAt(text, from, k)
    ensures c.None? ==> forall k :: !GroupEndsAt(text, from, k)
  {
    var e := LineEnd(text, from);
    var c := LastCloseBefore(text, from, e);
    forall k | GroupEndsAt(text, from, k)
      ensures k + |Close| <= e
    {
      CloseStaysOnLine(text, from, k, e);
    }
    if c.Some? then
      assert text[from..c.value] == text[from..e][..c.value - from];
      c
    else c
  }

  /** A `);` reachable from `from` without crossing a line feed ends before the line does. */
  lemma CloseStaysOnLine(text: string, from: nat, k: int, e: nat)
    requires GroupEndsAt(text, from, k)
    requires from <= e <= |text| && (e < |text| ==> text[e] == '\n')
    requires '\n' !in text[from..e]
    ensures k + |Close| <= e
  {
  }

  /** The match the regex finds when it tries position `start`: the prefix must be there,
      and the group then ends at the last `);` of the line. */
  function MatchAt(text: string, start: nat): (c: Option<nat>)
    requires start + |Prefix| <= |text|
    ensures c.Some? ==> MatchesAt(text, start, c.value)
    ensures c.Some? ==> forall k :: c.value < k ==> !MatchesAt(text, start, k)
    ensures c.None? ==> forall k :: !MatchesAt(text, start, k)
  {
    if OccursAt(text, start, Prefix) then GroupEnd(text, start + |Prefix|) else None
  }

  /** The regex search from position `from` onwards: the first position where a match
      starts. */
  function FindFrom(text: string, from: nat): (r: Option<Span>)
    requires from <= |text|
    ensures r.Some? ==> from <= r.value.start && MatchesAt(text, r.value.start, r.value.close)
    ensures r.Some? ==> forall s, c :: from <= s < r.value.start ==> !MatchesAt(text, s, c)
    ensures r.Some? ==> forall c :: r.value.close < c ==> !MatchesAt(text, r.value.start, c)
    ensures r.None? ==> forall s, c :: from <= s ==> !MatchesAt(text, s, c)
    decreases |text| - from
  {
    if |text| < from + |Prefix| then
      NoRoomNoMatch(text, from);
      None
    else
      match MatchAt(text, from)
      case Some(c) => Some(Span(from, c))
      case None => FindFrom(text, from + 1)
  }

  /** Too close to the end for the prefix to fit: no match starts here or later. */
  lemma NoRoomNoMatch(text: string, from: nat)
    requires |text| < from + |Prefix|
    ensures forall s, c :: from <= s ==> !MatchesAt(text, s, c)
  {
  }

  /** `re.captures(html)`: the leftmost match, with the group extended to the last `);`
      of its line. Absent exactly when the regex matches nowhere. */
  function FindPlayerCall(text: string): (r: Option<Span>)
    ensures r.None? <==> forall s, c :: !MatchesAt(text, s, c)
    ensures r.Some? ==> MatchesAt(text, r.value.start, r.value.close)
    ensures r.Some? ==> forall s, c :: s < r.value.start ==> !MatchesAt(text, s, c)
    ensures r.Some? ==> forall c :: r.value.close < c ==> !MatchesAt(text, r.value.start, c)
  {
    FindFrom(text, 0)
  }

  /** Capture group 1 of the leftmost match: the argument text between the prefix and the
      last `);` on that line. */
  function Capture(text: string): (r: Option<string>)
    ensures r.None? <==> forall s, c :: !MatchesAt(text, s, c)
    ensures r.Some? ==> '\n' !in r.value
    ensures r.Some? ==> exists s, c :: && MatchesAt(text, s, c) && r.value == text[s + |Prefix|..c]
                                       && (forall s', c' :: s' < s ==> !MatchesAt(text, s', c'))
                                       && (forall c' :: c < c' ==> !MatchesAt(text, s, c'))
  {
    match FindPlayerCall(text)
    case None => None
    case Some(sp) => Some(text[sp.start + |Prefix|..sp.close])
  }

  /** A text that is exactly one constructor call on one line yields its whole argument
      list as the capture, even when the arguments themselves contain `);`. */
  lemma WholeCallCapture(args: string)
    requires '\n' !in args
    ensures Capture(Prefix + args + Close) == Some(args)
  {
    var text := Prefix + args + Close;
    var close := |Prefix| + |args|;
    assert text[..|Prefix|] == Prefix;
    assert text[close..] == Close;
    assert text[|Prefix|..close] == args;
    assert MatchesAt(text, 0, close);
    var sp := FindPlayerCall(text).value;
    assert sp.start == 0;
    assert sp.close == close;
  }
}
