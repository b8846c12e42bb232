/**
 * The post-processing of get_incident: the first bracketed list in the
 * language model's answer, found as `re.search(r'\[(.*?)\]', ...)` finds it,
 * is split on commas, each item is stripped, and the five items become the
 * fields of the incident; injured and dead keep only the text after the last
 * colon.  The model call and the file read before it are not modelled.
 */
module Incident {
  import opened Wrappers
  import opened Text

  const FailureMessage: string := "Failed to parse incident"

  datatype Incident = Incident(summary: string, ambulance: string, fireEngine: string, injured: string, dead: string)

  /** What get_incident ends with: the structured dict, the error dict, or
      the IndexError that indexing a short item list raises. */
  datatype Outcome = Structured(incident: Incident) | ErrorDict(error: string) | IndexError

  predicate NoNewline(s: string, lo: nat, hi: nat)
    requires lo <= hi <= |s|
  {
    forall m :: lo <= m < hi ==> s[m] != '\n'
  }

  /** `\[(.*?)\]` can match s[i..j + 1]: '[' at i, ']' at j, and no newline
      between them, since `.` does not match one. */
  predicate PairAt(s: string, i: nat, j: nat) {
    i < j < |s| && s[i] == '[' && s[j] == ']' && NoNewline(s, i + 1, j)
  }

  /** The nearest ']' at or after k, unless a newline comes first. */
  function CloseFrom(s: string, k: nat): (r: Option<nat>)
    requires k <= |s|
    ensures r.Some? ==> k <= r.value < |s| && s[r.value] == ']' && NoNewline(s, k, r.value)
    ensures r.Some? ==> forall m :: k <= m < r.value ==> s[m] != ']'
    ensures r.None? ==> forall j :: k <= j < |s| && s[j] == ']' ==> !NoNewline(s, k, j)
    decreases |s| - k
  {
    if k == |s| then None
    else if s[k] == ']' then Some(k)
    else if s[k] == '\n' then None
    else CloseFrom(s, k + 1)
  }

  /** The regular-expression search from position i on: the leftmost start
      that has a match, with the shortest match from there. */
  function SearchFrom(s: string, i: nat): (r: Option<(nat, nat)>)
    requires i <= |s|
    ensures r.Some? ==> i <= r.value.0 && PairAt(s, r.value.0, r.value.1)
    ensures r.Some? ==> forall a, b :: i <= a < r.value.0 ==> !PairAt(s, a, b)
    ensures r.Some? ==> forall m :: r.value.0 < m < r.value.1 ==> s[m] != ']'
    ensures r.None? ==> forall a, b :: i <= a ==> !PairAt(s, a, b)
    decreases |s| - i
  {
    if i == |s| then None
    else if s[i] == '[' then
      match CloseFrom(s, i + 1)
      case Some(j) => Some((i, j))
      case None => SearchFrom(s, i + 1)
    else SearchFrom(s, i + 1)
  }

  /** The leftmost non-greedy bracket match: the positions of its '[' and
      of its ']'. */
  function Search(s: string): Option<(nat, nat)> {
    SearchFrom(s, 0)
  }

  /** The captured text between the brackets of the match, if any. */
  function Extract(s: string): Option<string> {
    match Search(s)
    case Some((i, j)) => Some(s[i + 1..j])
    case None => None
  }

  /** Every piece, stripped, in the same order. */
  function StripAll(items: seq<string>): (r: seq<string>)
    ensures |r| == |items|
    ensures forall k :: 0 <= k < |r| ==> r[k] == Strip(items[k])
  {
    if items == [] then [] else [Strip(items[0])] + StripAll(items[1..])
  }

  /** The bracket contents split on every comma, each item stripped. */
  function Items(body: string): (r: seq<string>)
    ensures |r| == Count(body, ',') + 1
    ensures forall k :: 0 <= k < |r| ==> Trimmed(r[k])
  {
    StripAll(Split(body, ','))
  }

  /** The error dict comes back exactly when the answer has no '[' ... ']'
      pair on one line; a list of fewer than five items, that is fewer than
      four commas, makes the indexing raise; otherwise the result is
      structured. */
  function ParseIncident(response: string): (r: Outcome)
    ensures r.ErrorDict? <==> forall i, j :: !PairAt(response, i, j)
    ensures r.ErrorDict? ==> r.error == FailureMessage
    ensures r == IndexError <==> Extract(response).Some? && Count(Extract(response).value, ',') < 4
    ensures r.Structured? <==> Extract(response).Some? && Count(Extract(response).value, ',') >= 4
  {
    match Extract(response)
    case None => ErrorDict(FailureMessage)
    case Some(body) =>
      var items := Items(body);
      if |items| < 5 then IndexError
      else Structured(Incident(items[0], items[1], items[2],
                               Strip(LastPiece(items[3], ':')), Strip(LastPiece(items[4], ':'))))
  }

  /** The extracted text lies on one line and holds no ']'; the regex chose
      the leftmost '[' that has a ']' after it on its line. */
  lemma {:induction false} ExtractShape(s: string)
    ensures Extract(s).Some? <==> exists i, j :: PairAt(s, i, j)
    ensures Extract(s).Some? ==> var body := Extract(s).value; ']' !in body && '\n' !in body
  {
    if Search(s).Some? {
      var (i, j) := Search(s).value;
      var body := s[i + 1..j];
      forall m | 0 <= m < |body| ensures body[m] != ']' && body[m] != '\n' {
        assert body[m] == s[i + 1 + m];
      }
    }
  }

  /** Every structured field is stripped. */
  lemma {:induction false} StructuredFieldsTrimmed(response: string)
    requires ParseIncident(response).Structured?
    ensures var inc := ParseIncident(response).incident;
      && Trimmed(inc.summary) && Trimmed(inc.ambulance) && Trimmed(inc.fireEngine)
      && Trimmed(inc.injured) && Trimmed(inc.dead)
  {
    var items := Items(Extract(response).value);
    assert Trimmed(items[0]) && Trimmed(items[1]) && Trimmed(items[2]);
  }

  /** Summary, ambulance and fire engine hold no comma; injured and dead
      hold no colon. */
  lemma {:induction false} StructuredFieldsSeparatorFree(response: string)
    requires ParseIncident(response).Structured?
    ensures var inc := ParseIncident(response).incident;
      && ',' !in inc.summary && ',' !in inc.ambulance && ',' !in inc.fireEngine
      && ':' !in inc.injured && ':' !in inc.dead
  {
    var body := Extract(response).value;
    var pieces := Split(body, ',');
    var items := Items(body);
    forall k | 0 <= k < 3 ensures ',' !in items[k] {
      StripSubstring(pieces[k], ',');
    }
    LastPieceSuffix(items[3], ':');
    LastPieceSuffix(items[4], ':');
    StripSubstring(LastPiece(items[3], ':'), ':');
    StripSubstring(LastPiece(items[4], ':'), ':');
  }

  /** v is the stripped text after a colon at k, the last colon of item. */
  predicate AfterLastColon(item: string, k: nat, v: string) {
    k < |item| && item[k] == ':' && ':' !in item[k + 1..] && v == Strip(item[k + 1..])
  }

  /** summary, ambulance and fire engine are items 0, 1 and 2 as stripped;
      injured and dead are the stripped text after the last colon of items 3
      and 4, or the whole item when it has no colon. */
  lemma {:induction false} CountFields(response: string)
    requires ParseIncident(response).Structured?
    ensures var items := Items(Extract(response).value);
      var inc := ParseIncident(response).incident;
      && inc.summary == items[0] && inc.ambulance == items[1] && inc.fireEngine == items[2]
      && (':' !in items[3] ==> inc.injured == items[3])
      && (':' in items[3] ==> exists k :: AfterLastColon(items[3], k, inc.injured))
      && (':' !in items[4] ==> inc.dead == items[4])
      && (':' in items[4] ==> exists k :: AfterLastColon(items[4], k, inc.dead))
  {
    var items := Items(Extract(response).value);
    var inc := ParseIncident(response).incident;
    LastColon(items[3], inc.injured);
    LastColon(items[4], inc.dead);
  }

  lemma {:induction false} LastColon(item: string, v: string)
    requires Trimmed(item) && v == Strip(LastPiece(item, ':'))
    ensures ':' !in item ==> v == item
    ensures ':' in item ==> exists k :: AfterLastColon(item, k, v)
  {
    var r := LastPiece(item, ':');
    LastPieceSuffix(item, ':');
    if ':' in item {
      var k := |item| - |r| - 1;
      assert item[k + 1..] == r;
      assert AfterLastColon(item, k, v);
    } else {
      StripTrimmed(item);
    }
  }

  /** strip() only removes characters. */
  lemma {:induction false} StripSubstring(s: string, c: char)
    requires c !in s
    ensures c !in Strip(s)
  {
    StripBounds(s);
    var r := Strip(s);
    var i :| 0 <= i <= |s| - |r| && r == s[i..i + |r|]
             && AllSpace(s[..i]) && AllSpace(s[i + |r|..]);
    forall m | 0 <= m < |r| ensures r[m] != c {
      assert r[m] == s[i + m];
    }
  }

  // The list format the model is asked for, and reading it back.

  const InjuredLabel: string := "Number of injured people"
  const DeadLabel: string := "Number of dead people"

  /** The items as the model is asked to write them, separated by ", ". */
  function RenderItems(inc: Incident): seq<string> {
    [inc.summary, " " + inc.ambulance, " " + inc.fireEngine,
     " " + InjuredLabel + ": " + inc.injured, " " + DeadLabel + ": " + inc.dead]
  }

  /** The list the model is asked to write: the three text fields and the
      two labelled counts, comma-separated inside one pair of brackets. */
  function Render(inc: Incident): string {
    "[" + Join(RenderItems(inc), ',') + "]"
  }

  predicate Clean(s: string) {
    ',' !in s && ']' !in s && '\n' !in s
  }

  /** What the list format writes before field k. */
  function PrefixOf(k: nat): string {
    if k == 0 then "" else if k < 3 then " " else if k == 3 then " " + InjuredLabel + ": " else " " + DeadLabel + ": "
  }

  /** The fields can be written in the list format without being misread. */
  predicate WellFormed(inc: Incident) {
    var fields := [inc.summary, inc.ambulance, inc.fireEngine, inc.injured, inc.dead];
    && (forall k :: 0 <= k < 5 ==> Trimmed(fields[k]))
    && (forall k :: 0 <= k < 5 ==> ',' !in fields[k] && ']' !in fields[k] && '\n' !in fields[k])
    && ':' !in inc.injured && ':' !in inc.dead
  }

  /** A labelled count reads back as the count after stripping and taking
      the text after the colon. */
  lemma {:induction false} LabelledValue(tag: string, v: string)
    requires tag != [] && Trimmed(tag) && ':' !in tag
    requires Trimmed(v) && ':' !in v
    ensures Strip(LastPiece(Strip(" " + tag + ": " + v), ':')) == v
  {
    if v == [] {
      assert " " + tag + ": " + v == " " + (tag + ":") + " ";
      StripPadded(" ", tag + ":", " ");
      SplitFirst(tag, [], ':');
      assert tag + ":" == tag + [':'] + [];
    } else {
      assert " " + tag + ": " + v == " " + (tag + ": " + v) + "";
      StripPadded(" ", tag + ": " + v, "");
      assert tag + ": " + v == tag + [':'] + (" " + v);
      SplitFirst(tag, " " + v, ':');
      SplitNoSep(" " + v, ':');
      StripPadded(" ", v, "");
      assert " " + v + "" == " " + v;
    }
  }

  /** An item written after ", " reads back as itself. */
  lemma {:induction false} SpacedItem(f: string)
    requires Trimmed(f)
    ensures Strip(" " + f) == f
  {
    StripPadded(" ", f, "");
    assert " " + f + "" == " " + f;
  }

  /** No piece of a well-formed list holds a comma, a ']' or a newline. */
  lemma {:induction false} RenderItemsClean(inc: Incident)
    requires WellFormed(inc)
    ensures forall k :: 0 <= k < 5 ==> Clean(RenderItems(inc)[k])
  {
    var parts := RenderItems(inc);
    var fields := [inc.summary, inc.ambulance, inc.fireEngine, inc.injured, inc.dead];
    forall k | 0 <= k < 5 ensures Clean(parts[k]) {
      assert Clean(fields[k]);
      PrefixClean(k);
      assert parts[k] == PrefixOf(k) + fields[k];
    }
  }

  lemma {:induction false} PrefixClean(k: nat)
    ensures Clean(PrefixOf(k))
  {
    if k >= 3 {
      var tag := if k == 3 then InjuredLabel else DeadLabel;
      assert Clean(" ") && Clean(tag) && Clean(": ");
      CleanConcat(" ", tag);
      CleanConcat(" " + tag, ": ");
    }
  }

  lemma {:induction false} CleanConcat(a: string, b: string)
    requires Clean(a) && Clean(b)
    ensures Clean(a + b)
  {
  }

  /** The regex matches exactly the rendered list. */
  lemma {:induction false} ExtractRender(pre: string, inc: Incident, post: string)
    requires WellFormed(inc) && '[' !in pre
    ensures Extract(pre + Render(inc) + post) == Some(Join(RenderItems(inc), ','))
  {
    var parts := RenderItems(inc);
    var body := Join(parts, ',');
    var s := pre + Render(inc) + post;
    var lo, hi := |pre|, |pre| + |body| + 1;
    assert s == pre + "[" + body + "]" + post;
    RenderItemsClean(inc);
    JoinExcludes(parts, ',', ']');
    JoinExcludes(parts, ',', '\n');
    forall m | lo < m < hi ensures s[m] != ']' && s[m] != '\n' {
      assert s[m] == body[m - lo - 1];
    }
    forall a | 0 <= a < lo ensures s[a] != '[' {
      assert s[a] == pre[a];
    }
    assert s[lo] == '[' && s[hi] == ']';
    assert PairAt(s, lo, hi);
    assert Search(s) == Some((lo, hi));
    assert s[lo + 1..hi] == body;
  }

  /** The stripped items of a rendered list read back as the fields. */
  lemma {:induction false} ItemsRender(inc: Incident)
    requires WellFormed(inc)
    ensures var items := Items(Join(RenderItems(inc), ','));
      && |items| == 5
      && items[0] == inc.summary && items[1] == inc.ambulance && items[2] == inc.fireEngine
      && Strip(LastPiece(items[3], ':')) == inc.injured && Strip(LastPiece(items[4], ':')) == inc.dead
  {
    var parts := RenderItems(inc);
    var fields := [inc.summary, inc.ambulance, inc.fireEngine, inc.injured, inc.dead];
    assert Trimmed(fields[0]) && Trimmed(fields[1]) && Trimmed(fields[2]) && Trimmed(fields[3]) && Trimmed(fields[4]);
    RenderItemsClean(inc);
    SplitJoin(parts, ',');
    StripTrimmed(inc.summary);
    SpacedItem(inc.ambulance);
    SpacedItem(inc.fireEngine);
    LabelledValue(InjuredLabel, inc.injured);
    LabelledValue(DeadLabel, inc.dead);
  }

  /** Where the well-formed list is the first bracket of the answer, the
      parser returns exactly the incident that was written. */
  lemma {:induction false} ParseRender(pre: string, inc: Incident, post: string)
    requires WellFormed(inc) && '[' !in pre
    ensures ParseIncident(pre + Render(inc) + post) == Structured(inc)
  {
    ExtractRender(pre, inc, post);
    ItemsRender(inc);
  }
}
