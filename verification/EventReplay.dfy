/**
 Event cursors and replay of a command's event log
 (src/data/execution_event.rs). A cursor is the `id:` of a server-sent event
 and comes back as `Last-Event-ID` (section 9.2 of the WHATWG HTML standard).
 */
module EventReplay {
  import opened Sequences
  import opened Wrappers

  type u32 = x: nat | x < 0x1_0000_0000
  type u64 = x: nat | x < 0x1_0000_0000_0000_0000

  /** A position in a command's stream, ordered by attempt and then sequence. */
  datatype EventCursor = EventCursor(attempt: u32, sequence: u64) {
    predicate Less(other: EventCursor) {
      attempt < other.attempt || (attempt == other.attempt && sequence < other.sequence)
    }
  }

  // ----- Decimal text -----

  predicate IsDigit(c: char) { '0' <= c <= '9' }

  predicate AllDigits(s: string) {
    s != [] && forall i :: 0 <= i < |s| ==> IsDigit(s[i])
  }

  function DigitChar(d: nat): char
    requires d < 10
  {
    '0' + d as char
  }

  function DigitValue(c: char): nat
    requires IsDigit(c)
  {
    (c - '0') as nat
  }

  function ValueOf(s: string): nat
    requires forall i :: 0 <= i < |s| ==> IsDigit(s[i])
  {
    if s == [] then 0 else 10 * ValueOf(s[..|s| - 1]) + DigitValue(s[|s| - 1])
  }

  function PrintNat(n: nat): string {
    if n < 10 then [DigitChar(n)] else PrintNat(n / 10) + [DigitChar(n % 10)]
  }

  /** Without redundant leading zeros; a lone zero stays. */
  function Canonical(s: string): string {
    if |s| > 1 && s[0] == '0' then Canonical(s[1..]) else s
  }

  lemma {:induction false} PrintedDigits(n: nat)
    ensures AllDigits(PrintNat(n)) && ValueOf(PrintNat(n)) == n
  {
    if n >= 10 {
      PrintedDigits(n / 10);
      assert PrintNat(n)[..|PrintNat(n)| - 1] == PrintNat(n / 10);
    }
  }

  lemma {:induction false} LeadingZeroValue(s: string)
    requires AllDigits(s) && s[0] == '0'
    ensures ValueOf(s) == ValueOf(s[1..])
  {
    if |s| > 1 {
      var last := |s| - 1;
      LeadingZeroValue(s[..last]);
      assert s[..last][1..] == s[1..][..last - 1];
    }
  }

  lemma PrintTens(tens: nat, digit: nat)
    requires tens > 0 && digit < 10
    ensures PrintNat(10 * tens + digit) == PrintNat(tens) + [DigitChar(digit)]
  {
    assert (10 * tens + digit) / 10 == tens && (10 * tens + digit) % 10 == digit;
  }

  lemma {:induction false} PrintCanonical(s: string)
    requires AllDigits(s) && (|s| == 1 || s[0] != '0')
    ensures PrintNat(ValueOf(s)) == s
    ensures s[0] != '0' ==> ValueOf(s) > 0
  {
    var last := |s| - 1;
    if last == 0 {
      assert ValueOf(s[..0]) == 0;
    } else {
      PrintCanonical(s[..last]);
      assert s == s[..last] + [s[last]];
      PrintTens(ValueOf(s[..last]), DigitValue(s[last]));
    }
  }

  /** Printing a parsed number gives its text without redundant leading zeros. */
  lemma {:induction false} PrintOfValue(s: string)
    requires AllDigits(s)
    ensures PrintNat(ValueOf(s)) == Canonical(s)
  {
    if |s| > 1 && s[0] == '0' {
      LeadingZeroValue(s);
      PrintOfValue(s[1..]);
    } else {
      PrintCanonical(s);
    }
  }

  // ----- Printing and parsing cursors -----

  function Print(c: EventCursor): string {
    PrintNat(c.attempt) + ":" + PrintNat(c.sequence)
  }

  /** Index of the first colon. */
  function FirstColon(s: string): (r: Option<nat>)
    ensures r.None? ==> ':' !in s
    ensures r.Some? ==> r.value < |s| && s[r.value] == ':' && ':' !in s[..r.value]
  {
    if s == [] then None
    else if s[0] == ':' then Some(0)
    else
      match FirstColon(s[1..])
      case None => None
      case Some(k) => assert s[..k + 1] == [s[0]] + s[1..][..k]; Some(k + 1)
  }

  function Parse(s: string): Option<EventCursor> {
    match FirstColon(s)
    case None => None
    case Some(k) =>
      var attempt, sequence := s[..k], s[k + 1..];
      if !AllDigits(attempt) || !AllDigits(sequence) then None
      else if ValueOf(attempt) >= 0x1_0000_0000 then None
      else if ValueOf(sequence) >= 0x1_0000_0000_0000_0000 then None
      else Some(EventCursor(ValueOf(attempt), ValueOf(sequence)))
  }

  /** `s` spells `c` as two decimal numbers around one colon, leading zeros allowed. */
  ghost predicate Spells(s: string, x: string, y: string, c: EventCursor) {
    && s == x + ":" + y && AllDigits(x) && AllDigits(y)
    && ValueOf(x) == c.attempt && ValueOf(y) == c.sequence
  }

  lemma SpelledColon(s: string, x: string, y: string, c: EventCursor)
    requires Spells(s, x, y, c)
    ensures FirstColon(s) == Some(|x|) && s[..|x|] == x && s[|x| + 1..] == y
  {
    assert s[|x|] == ':';
    assert forall i :: 0 <= i < |x| ==> s[i] == x[i];
    assert forall i :: |x| < i < |s| ==> s[i] == y[i - |x| - 1];
  }

  /** Exactly the spellings of a cursor are accepted. */
  lemma ParseAcceptsSpellings(s: string, c: EventCursor)
    ensures Parse(s) == Some(c) <==> exists x, y :: Spells(s, x, y, c)
  {
    if Parse(s) == Some(c) {
      var k := FirstColon(s).value;
      assert s == s[..k] + ":" + s[k + 1..];
      assert Spells(s, s[..k], s[k + 1..], c);
    }
    if x, y :| Spells(s, x, y, c) {
      SpelledColon(s, x, y, c);
    }
  }

  /** Parsing inverts printing for every cursor. */
  lemma ParseInvertsPrint(c: EventCursor)
    ensures Parse(Print(c)) == Some(c)
  {
    PrintedDigits(c.attempt);
    PrintedDigits(c.sequence);
    assert Spells(Print(c), PrintNat(c.attempt), PrintNat(c.sequence), c);
    ParseAcceptsSpellings(Print(c), c);
  }

  /** Printing a parsed cursor gives its spelling without redundant leading zeros. */
  lemma PrintOfParse(s: string, x: string, y: string, c: EventCursor)
    requires Spells(s, x, y, c)
    ensures Print(c) == Canonical(x) + ":" + Canonical(y)
  {
    PrintOfValue(x);
    PrintOfValue(y);
  }

  // ----- Replay -----

  datatype Event = Event(attempt: u32, sequence: u64, payload: string) {
    function Cursor(): EventCursor { EventCursor(attempt, sequence) }
  }

  function KeptAttempts(events: seq<Event>): set<u32> {
    set e | e in events :: e.attempt
  }

  datatype ReplayFrom =
    | Beginning
    | After(cursor: EventCursor)
    | StartOfAttempt(attempt: u32)
  {
    predicate Includes(e: Event) {
      match this
      case Beginning => true
      case After(c) => c.Less(e.Cursor())
      case StartOfAttempt(a) => e.attempt == a
    }
  }

  function Resolve(events: seq<Event>, current: u32, requested: Option<EventCursor>): ReplayFrom {
    match requested
    case None => Beginning
    case Some(c) =>
      if c.attempt <= current && exists e :: e in events && e.attempt == c.attempt then After(c)
      else StartOfAttempt(current)
  }

  function Select(events: seq<Event>, from: ReplayFrom): seq<Event> {
    if events == [] then []
    else
      var last := |events| - 1;
      Select(events[..last], from) + if from.Includes(events[last]) then [events[last]] else []
  }

  /** What a client resuming at `requested` is sent. */
  function Replay(events: seq<Event>, current: u32, requested: Option<EventCursor>): seq<Event> {
    Select(events, Resolve(events, current, requested))
  }

  /** A log as appended: cursors strictly increase, no attempt above the current one. */
  ghost predicate IsLog(log: seq<Event>, current: u32) {
    && (forall i, j :: 0 <= i < j < |log| ==> log[i].Cursor().Less(log[j].Cursor()))
    && (forall i :: 0 <= i < |log| ==> log[i].attempt <= current)
  }

  /** A selection that starts at index `k` and never stops is the suffix there. */
  lemma {:induction false} SelectSuffix(events: seq<Event>, from: ReplayFrom, k: nat)
    requires k <= |events|
    requires forall i :: 0 <= i < |events| ==> (from.Includes(events[i]) <==> i >= k)
    ensures Select(events, from) == events[k..]
  {
    if events != [] {
      var last := |events| - 1;
      if k <= last {
        SelectSuffix(events[..last], from, k);
        SuffixSnoc(events, k);
      } else {
        SelectSuffix(events[..last], from, last);
      }
    }
  }

  lemma LogOrder(log: seq<Event>, current: u32, m: nat, i: nat)
    requires IsLog(log, current) && m < |log| && i < |log|
    ensures log[m].Cursor().Less(log[i].Cursor()) <==> m < i
  {
  }

  lemma ResolveKept(events: seq<Event>, current: u32, cursor: EventCursor)
    ensures Resolve(events, current, Some(cursor)) ==
            if cursor.attempt <= current && cursor.attempt in KeptAttempts(events) then After(cursor)
            else StartOfAttempt(current)
  {
  }

  /** Of the entries still kept, those after entry `seen - 1` are the unseen ones. */
  lemma KeptAfter(log: seq<Event>, current: u32, purged: nat, seen: nat, start: nat)
    requires IsLog(log, current) && purged <= |log| && 0 < seen <= |log|
    requires start == if purged <= seen then seen - purged else 0
    ensures Select(log[purged..], After(log[seen - 1].Cursor())) == log[purged + start..]
  {
    var kept, from := log[purged..], After(log[seen - 1].Cursor());
    forall i | 0 <= i < |kept| ensures from.Includes(kept[i]) <==> i >= start {
      LogOrder(log, current, seen - 1, purged + i);
    }
    SelectSuffix(kept, from, start);
    SuffixOfSuffix(log, purged, start);
  }

  /**
   Replay of a log whose first `purged` entries are gone, to a client that saw
   entry `seen - 1` last, while the attempt of that entry is still kept: the
   client gets everything it has not seen, nothing twice, and misses exactly
   what was purged unseen.
   */
  lemma ReplayContinues(log: seq<Event>, current: u32, purged: nat, seen: nat)
    requires IsLog(log, current) && purged <= |log| && 0 < seen <= |log|
    requires log[seen - 1].attempt in KeptAttempts(log[purged..])
    ensures Replay(log[purged..], current, Some(log[seen - 1].Cursor())) ==
            log[if purged <= seen then seen else purged..]
  {
    ResolveKept(log[purged..], current, log[seen - 1].Cursor());
    KeptAfter(log, current, purged, seen, if purged <= seen then seen - purged else 0);
  }

  /** Index of the first entry from `i` on that belongs to attempt `a`; the end of the log if there is none. */
  function FirstOf(log: seq<Event>, i: nat, a: u32): (k: nat)
    requires i <= |log|
    ensures i <= k <= |log| && (forall j :: i <= j < k ==> log[j].attempt != a) && (k < |log| ==> log[k].attempt == a)
    decreases |log| - i
  {
    if i == |log| || log[i].attempt == a then i else FirstOf(log, i + 1, a)
  }

  /** The entries of the current attempt are the last of a log. */
  lemma CurrentAttemptIsSuffix(log: seq<Event>, current: u32, i: nat, j: nat)
    requires IsLog(log, current) && i <= j < |log|
    ensures log[j].attempt == current <==> j >= FirstOf(log, i, current)
  {
    var k := FirstOf(log, i, current);
    assert k < j ==> log[k].Cursor().Less(log[j].Cursor());
  }

  /** A cursor whose attempt is not kept, or lies ahead, replays exactly what is kept of the current attempt. */
  lemma UnknownCursorRestartsAttempt(log: seq<Event>, current: u32, purged: nat, cursor: EventCursor)
    requires IsLog(log, current) && purged <= |log| && cursor.attempt !in KeptAttempts(log[purged..])
    ensures Replay(log[purged..], current, Some(cursor)) == log[FirstOf(log, purged, current)..]
    ensures forall j :: purged <= j < |log| ==>
                          (log[j].attempt == current <==> j >= FirstOf(log, purged, current))
  {
    var kept, k := log[purged..], FirstOf(log, purged, current);
    ResolveKept(kept, current, cursor);
    forall j | purged <= j < |log| ensures log[j].attempt == current <==> j >= k {
      CurrentAttemptIsSuffix(log, current, purged, j);
    }
    assert forall i :: 0 <= i < |kept| ==> kept[i] == log[purged + i];
    SelectSuffix(kept, StartOfAttempt(current), k - purged);
    SuffixOfSuffix(log, purged, k - purged);
  }

  /** Where the replay to a client starts that got entry `seen - 1` last, if it got any. */
  function Start(log: seq<Event>, purged: nat, current: u32, seen: nat): (s: nat)
    requires purged <= |log| && seen <= |log|
    ensures purged <= s <= |log|
  {
    if seen == 0 then purged
    else if log[seen - 1].attempt in KeptAttempts(log[purged..]) then if purged <= seen then seen else purged
    else FirstOf(log, purged, current)
  }

  /** The client's last attempt is gone. */
  predicate AttemptGone(log: seq<Event>, purged: nat, seen: nat)
    requires purged <= |log| && seen <= |log|
  {
    seen > 0 && log[seen - 1].attempt !in KeptAttempts(log[purged..])
  }

  lemma GoneIsPurged(log: seq<Event>, purged: nat, seen: nat)
    requires purged <= |log| && seen <= |log|
    ensures AttemptGone(log, purged, seen) ==> seen <= purged
  {
    if purged < seen {
      assert log[purged..][seen - 1 - purged] == log[seen - 1];
    }
  }

  /**
   A replay never goes back, and passes over only what is purged or, for a
   client whose attempt is gone, older than the current attempt.
   */
  lemma StartPassesOver(log: seq<Event>, purged: nat, current: u32, seen: nat)
    requires IsLog(log, current) && purged <= |log| && seen <= |log|
    ensures var s := Start(log, purged, current, seen);
            && seen <= s
            && (forall j :: seen <= j < s ==>
                              j < purged || (AttemptGone(log, purged, seen) && log[j].attempt < current))
  {
    GoneIsPurged(log, purged, seen);
  }

  lemma ReplayStarts(log: seq<Event>, purged: nat, current: u32, seen: nat)
    requires IsLog(log, current) && purged <= |log| && seen <= |log|
    ensures Replay(log[purged..], current, if seen == 0 then None else Some(log[seen - 1].Cursor())) ==
            log[Start(log, purged, current, seen)..]
  {
    if seen == 0 {
      SelectSuffix(log[purged..], Beginning, 0);
    } else if AttemptGone(log, purged, seen) {
      UnknownCursorRestartsAttempt(log, current, purged, log[seen - 1].Cursor());
    } else {
      ReplayContinues(log, current, purged, seen);
    }
  }

  // ----- Reconnecting clients -----

  /**
   One connection: everything logged by then, how many of the first entries are
   no longer kept, the current attempt, and how many events arrived before the
   connection dropped.
   */
  datatype Connection = Connection(log: seq<Event>, purged: nat, current: u32, arrived: nat) {
    ghost predicate Valid() { purged <= |log| && IsLog(log, current) }
  }

  function LastCursor(received: seq<Event>): Option<EventCursor> {
    if received == [] then None else Some(received[|received| - 1].Cursor())
  }

  /** What gets through of a replay that is cut off after `n` events. */
  function CutOff(replay: seq<Event>, n: nat): seq<Event> { if n <= |replay| then replay[..n] else replay }

  function Delivered(c: Connection, received: seq<Event>): seq<Event>
    requires c.purged <= |c.log|
  {
    CutOff(Replay(c.log[c.purged..], c.current, LastCursor(received)), c.arrived)
  }

  /** The log only grows at its end between connections; how much of it is kept may change at will. */
  ghost predicate IsHistory(history: seq<Connection>) {
    history == [] ||
    var n := |history| - 1;
    IsHistory(history[..n]) && history[n].Valid() && (n > 0 ==> history[n - 1].log <= history[n].log)
  }

  /** Everything the client received, resuming each time from its last event. */
  ghost function Received(history: seq<Connection>): seq<Event>
    requires IsHistory(history)
  {
    if history == [] then []
    else
      var before := Received(history[..|history| - 1]);
      before + Delivered(history[|history| - 1], before)
  }

  function Range(a: nat, b: nat): (r: set<nat>)
    ensures forall j :: j in r <==> a <= j < b
    decreases b
  {
    if b <= a then {} else Range(a, b - 1) + {b - 1}
  }

  /** Where a client stands: one past the last entry it got, and the entries before it that it did not get. */
  datatype Progress = Progress(seen: nat, gaps: set<nat>)

  /** How many entries the connection delivers. */
  function Arriving(c: Connection, seen: nat): nat
    requires c.purged <= |c.log| && seen <= |c.log|
  {
    var rest := |c.log| - Start(c.log, c.purged, c.current, seen);
    if c.arrived <= rest then c.arrived else rest
  }

  function Advance(c: Connection, p: Progress): (q: Progress)
    requires c.purged <= |c.log| && p.seen <= |c.log|
    ensures q.seen <= |c.log|
  {
    var s := Start(c.log, c.purged, c.current, p.seen);
    if Arriving(c, p.seen) == 0 then p
    else Progress(s + Arriving(c, p.seen), p.gaps + Range(p.seen, s))
  }

  ghost function ProgressOf(history: seq<Connection>): (p: Progress)
    requires IsHistory(history)
    ensures p.seen <= if history == [] then 0 else |history[|history| - 1].log|
  {
    if history == [] then Progress(0, {})
    else Advance(history[|history| - 1], ProgressOf(history[..|history| - 1]))
  }

  /** The first `n` entries of a log without those at the indices `gaps`. */
  ghost function Without(log: seq<Event>, n: nat, gaps: set<nat>): seq<Event>
    requires n <= |log|
  {
    if n == 0 then [] else Without(log, n - 1, gaps) + if n - 1 in gaps then [] else [log[n - 1]]
  }

  lemma {:induction false} WithoutAgrees(log: seq<Event>, longer: seq<Event>, gaps: set<nat>, more: set<nat>, n: nat)
    requires n <= |log| && log <= longer && forall j: nat :: j < n ==> (j in gaps <==> j in more)
    ensures Without(log, n, gaps) == Without(longer, n, more)
  {
    if n > 0 {
      WithoutAgrees(log, longer, gaps, more, n - 1);
    }
  }

  lemma {:induction false} WithoutSkips(log: seq<Event>, gaps: set<nat>, i: nat, n: nat)
    requires i <= n <= |log| && forall j: nat :: i <= j < n ==> j in gaps
    ensures Without(log, n, gaps) == Without(log, i, gaps)
  {
    if i < n {
      WithoutSkips(log, gaps, i, n - 1);
    }
  }

  lemma {:induction false} WithoutKeeps(log: seq<Event>, gaps: set<nat>, i: nat, n: nat)
    requires i <= n <= |log| && forall j: nat :: i <= j < n ==> j !in gaps
    ensures Without(log, n, gaps) == Without(log, i, gaps) + log[i..n]
  {
    if i < n {
      WithoutKeeps(log, gaps, i, n - 1);
      assert log[i..n] == log[i..n - 1] + [log[n - 1]];
      Assoc(Without(log, i, gaps), log[i..n - 1], [log[n - 1]]);
    } else {
      assert log[i..n] == [];
    }
  }

  /** The client holds the log up to where it stands, without the gaps, in order and nothing twice. */
  ghost predicate Holds(received: seq<Event>, log: seq<Event>, p: Progress) {
    && p.seen <= |log| && (forall j :: j in p.gaps ==> j < p.seen)
    && received == Without(log, p.seen, p.gaps)
    && LastCursor(received) == if p.seen == 0 then None else Some(log[p.seen - 1].Cursor())
  }

  lemma HoldsMore(received: seq<Event>, log: seq<Event>, longer: seq<Event>, p: Progress)
    requires Holds(received, log, p) && log <= longer
    ensures Holds(received, longer, p)
  {
    WithoutAgrees(log, longer, p.gaps, p.gaps, p.seen);
  }

  lemma LastOfBoth(received: seq<Event>, more: seq<Event>)
    requires more != []
    ensures LastCursor(received + more) == Some(more[|more| - 1].Cursor())
  {
  }

  /** Receiving the entries from `s` on, after those before `p.seen`. */
  lemma HoldsNext(received: seq<Event>, log: seq<Event>, p: Progress, s: nat, n: nat)
    requires Holds(received, log, p) && p.seen <= s && 0 < n && s + n <= |log|
    ensures Holds(received + log[s..s + n], log, Progress(s + n, p.gaps + Range(p.seen, s)))
  {
    var gaps := p.gaps + Range(p.seen, s);
    WithoutAgrees(log, log, p.gaps, gaps, p.seen);
    WithoutSkips(log, gaps, p.seen, s);
    WithoutKeeps(log, gaps, s, s + n);
    LastOfBoth(received, log[s..s + n]);
  }

  lemma CutOffSuffix(log: seq<Event>, s: nat, n: nat)
    requires s <= |log|
    ensures CutOff(log[s..], n) == log[s..s + if n <= |log| - s then n else |log| - s]
  {
  }

  lemma DeliveryIs(c: Connection, received: seq<Event>, p: Progress)
    requires c.Valid() && Holds(received, c.log, p)
    ensures var s := Start(c.log, c.purged, c.current, p.seen);
            Delivered(c, received) == c.log[s..s + Arriving(c, p.seen)]
  {
    ReplayStarts(c.log, c.purged, c.current, p.seen);
    CutOffSuffix(c.log, Start(c.log, c.purged, c.current, p.seen), c.arrived);
  }

  lemma AdvanceIs(c: Connection, p: Progress, s: nat, n: nat)
    requires c.Valid() && p.seen <= |c.log|
    requires s == Start(c.log, c.purged, c.current, p.seen) && n == Arriving(c, p.seen)
    ensures s + n <= |c.log| && p.seen <= s
    ensures n == 0 ==> Advance(c, p) == p
    ensures n > 0 ==> Advance(c, p) == Progress(s + n, p.gaps + Range(p.seen, s))
  {
    StartPassesOver(c.log, c.purged, c.current, p.seen);
  }

  lemma HoldsAdvanced(c: Connection, received: seq<Event>, p: Progress, s: nat, n: nat)
    requires c.Valid() && Holds(received, c.log, p)
    requires s == Start(c.log, c.purged, c.current, p.seen) && n == Arriving(c, p.seen)
    ensures s + n <= |c.log| && Holds(received + c.log[s..s + n], c.log, Advance(c, p))
  {
    AdvanceIs(c, p, s, n);
    if n == 0 {
      assert received + c.log[s..s + n] == received;
    } else {
      HoldsNext(received, c.log, p, s, n);
    }
  }

  lemma DeliveryAdvances(c: Connection, received: seq<Event>, p: Progress)
    requires c.Valid() && Holds(received, c.log, p)
    ensures Holds(received + Delivered(c, received), c.log, Advance(c, p))
  {
    DeliveryIs(c, received, p);
    HoldsAdvanced(c, received, p, Start(c.log, c.purged, c.current, p.seen), Arriving(c, p.seen));
  }

  /**
   Across any number of connections, each cut off anywhere, with entries purged
   in between, the client holds the log up to where it stands without the gaps.
   */
  lemma {:induction false} OnceWithGaps(history: seq<Connection>)
    requires history != [] && IsHistory(history)
    ensures Holds(Received(history), history[|history| - 1].log, ProgressOf(history))
  {
    var n := |history| - 1;
    var before, p := Received(history[..n]), ProgressOf(history[..n]);
    if n > 0 {
      OnceWithGaps(history[..n]);
      HoldsMore(before, history[n - 1].log, history[n].log, p);
    }
    DeliveryAdvances(history[n], before, p);
  }

  /**
   A connection of a client standing at `seen` passes over entry `j` on its way
   to later ones: the entry was purged by then or, the client's attempt being
   gone, is older than the current attempt.
   */
  ghost predicate PassesOver(c: Connection, seen: nat, j: nat) {
    && c.Valid() && seen <= j < |c.log| && c.arrived > 0 && c.purged > 0
    && (j < c.purged || (AttemptGone(c.log, c.purged, seen) && c.log[j].attempt < c.current))
  }

  lemma NewGapIsExcused(c: Connection, p: Progress, j: nat)
    requires c.Valid() && p.seen <= |c.log| && j !in p.gaps && j in Advance(c, p).gaps
    ensures PassesOver(c, p.seen, j)
  {
    StartPassesOver(c.log, c.purged, c.current, p.seen);
    GoneIsPurged(c.log, c.purged, p.seen);
  }

  /** Every gap was passed over by some connection, for such a reason. */
  lemma {:induction false} GapsAreExcused(history: seq<Connection>, j: nat) returns (i: nat)
    requires IsHistory(history) && j in ProgressOf(history).gaps
    ensures i < |history| && IsHistory(history[..i]) && PassesOver(history[i], ProgressOf(history[..i]).seen, j)
  {
    var n := |history| - 1;
    var earlier := history[..n];
    if j in ProgressOf(earlier).gaps {
      i := GapsAreExcused(earlier, j);
      PrefixOfPrefix(history, n, i);
    } else {
      i := n;
      NewGapIsExcused(history[n], ProgressOf(earlier), j);
    }
  }

  /** Nothing was purged by the time of any connection. */
  predicate NothingPurged(history: seq<Connection>) {
    forall i :: 0 <= i < |history| ==> history[i].purged == 0
  }

  lemma NoGaps(history: seq<Connection>)
    requires IsHistory(history) && NothingPurged(history)
    ensures ProgressOf(history).gaps == {}
  {
    forall j | j in ProgressOf(history).gaps ensures false {
      var i := GapsAreExcused(history, j);
    }
  }

  /**
   Without purges the client holds exactly a prefix of the log; all of it once a
   connection delivers its whole replay.
   */
  lemma ExactlyOnce(history: seq<Connection>)
    requires history != [] && IsHistory(history) && NothingPurged(history)
    ensures var last := history[|history| - 1];
            && Received(history) <= last.log
            && (last.arrived >= |last.log| ==> Received(history) == last.log)
  {
    var last, seen := history[|history| - 1], ProgressOf(history[..|history| - 1]).seen;
    OnceWithGaps(history);
    NoGaps(history);
    WithoutKeeps(last.log, {}, 0, ProgressOf(history).seen);
    StartPassesOver(last.log, 0, last.current, seen);
    GoneIsPurged(last.log, 0, seen);
  }
}
