/**
 Migration 0028 as functions of the table: `upgrade` groups the exchanges into sessions and splits
 each into one or two numbered turns, `downgrade` joins every answer back to its question.
 `gen_random_uuid()` is any sequence of distinct ids.
 */
module ChatMigration {
  import opened Options
  import opened SessionGrouping
  import opened Transcript

  // ---------------------------------------------------------------------------------------
  // ORDER BY created_at, id
  // ---------------------------------------------------------------------------------------

  predicate Before(a: Exchange, b: Exchange) {
    a.at < b.at || (a.at == b.at && a.id <= b.id)
  }

  function Insert(r: Exchange, rows: seq<Exchange>): seq<Exchange> {
    if rows == [] || Before(r, rows[0]) then [r] + rows else [rows[0]] + Insert(r, rows[1..])
  }

  function Sort(rows: seq<Exchange>): seq<Exchange> {
    if rows == [] then [] else Insert(rows[0], Sort(rows[1..]))
  }

  function Ats(rows: seq<Exchange>): seq<Micros> {
    seq(|rows|, i requires 0 <= i < |rows| => rows[i].at)
  }

  // ---------------------------------------------------------------------------------------
  // Upgrade
  // ---------------------------------------------------------------------------------------

  predicate Drawn(ids: seq<Uuid>, n: nat) {
    |ids| == n && forall i, j :: 0 <= i < j < n ==> ids[i] != ids[j]
  }

  predicate HasAnswer(r: Exchange) {
    r.answer.Some? && !Blank(r.answer.value)
  }

  function UserTurn(r: Exchange, session: Uuid): Turn {
    Turn(0, session, User, r.text, 0, r.externalKey, Some(r.intent), None, None, NO_CITATIONS, r.at)
  }

  function AssistantTurn(r: Exchange, session: Uuid): Turn
    requires HasAnswer(r)
  {
    Turn(0, session, Assistant, r.answer.value, 0, None, None, r.answerModel, r.answerRefused, r.citations, r.at)
  }

  function TurnsOf(r: Exchange, session: Uuid): seq<Turn> {
    [UserTurn(r, session)] + if HasAnswer(r) then [AssistantTurn(r, session)] else []
  }

  /** The `turns` CTE for the first `n` sorted rows, in the order `created_at, source_id, half`. */
  function Split(rows: seq<Exchange>, sids: seq<Uuid>, n: nat): seq<Turn>
    requires n <= |rows| && |sids| == SessionCount(Ats(rows))
  {
    if n == 0 then []
    else Split(rows, sids, n - 1) + TurnsOf(rows[n - 1], SessionOf(rows, sids, n - 1))
  }

  function SessionOf(rows: seq<Exchange>, sids: seq<Uuid>, i: nat): Uuid
    requires i < |rows| && |sids| == SessionCount(Ats(rows))
  {
    NumberGrows(Ats(rows), i, |rows| - 1);
    sids[Number(Ats(rows), i) - 1]
  }

  function CountIn(turns: seq<Turn>, session: Uuid): nat {
    if turns == [] then 0
    else CountIn(turns[..|turns| - 1], session) + (if turns[|turns| - 1].session == session then 1 else 0)
  }

  /** `row_number() OVER (PARTITION BY session_id ORDER BY ...) - 1`, and a fresh id a row. */
  function Numbered(turns: seq<Turn>, tids: seq<Uuid>): seq<Turn>
    requires |tids| == |turns|
  {
    seq(|turns|, p requires 0 <= p < |turns| =>
      turns[p].(id := tids[p], ordinal := CountIn(turns[..p], turns[p].session)))
  }

  /** `chat_messages_new` after the load of the sorted rows. */
  function LoadedTurns(rows: seq<Exchange>, sids: seq<Uuid>, tids: seq<Uuid>): seq<Turn>
    requires |sids| == SessionCount(Ats(rows)) && |tids| == |Split(rows, sids, |rows|)|
  {
    Numbered(Split(rows, sids, |rows|), tids)
  }

  function SessionRow(ats: seq<Micros>, sids: seq<Uuid>, k: nat, count: nat): ChatSession
    requires k < |sids| == SessionCount(ats)
  {
    ExtentExists(ats, k + 1);
    ChatSession(sids[k], MinAt(ats, k + 1, |ats|).value, MaxAt(ats, k + 1, |ats|).value, count)
  }

  /** `chat_sessions` after its `message_count` is set. */
  function LoadedSessions(rows: seq<Exchange>, sids: seq<Uuid>, turns: seq<Turn>): seq<ChatSession>
    requires |sids| == SessionCount(Ats(rows))
  {
    seq(|sids|, k requires 0 <= k < |sids| => SessionRow(Ats(rows), sids, k, CountIn(turns, sids[k])))
  }

  /** The ids an upgrade of the sorted rows draws: one a session and one a turn, no two alike. */
  predicate Draws(rows: seq<Exchange>, sids: seq<Uuid>, tids: seq<Uuid>) {
    Drawn(sids, SessionCount(Ats(rows))) && Drawn(tids, |Split(rows, sids, |rows|)|)
  }

  // ---------------------------------------------------------------------------------------
  // Downgrade
  // ---------------------------------------------------------------------------------------

  /** The LEFT JOIN's condition. */
  predicate Answers(a: Turn, u: Turn) {
    a.session == u.session && a.ordinal == u.ordinal + 1 && a.role == Assistant
  }

  function Matches(turns: seq<Turn>, u: Turn): seq<Turn> {
    if turns == [] then []
    else
      var last := turns[|turns| - 1];
      Matches(turns[..|turns| - 1], u) + if Answers(last, u) then [last] else []
  }

  function Rejoined(u: Turn, a: Option<Turn>): Exchange
    requires u.intent.Some?
  {
    match a
    case None =>
      Exchange(u.id, u.content, u.intent.value, u.externalKey, None, None, None, NO_CITATIONS, u.at)
    case Some(a) =>
      Exchange(u.id, u.content, u.intent.value, u.externalKey,
               Some(a.content), a.answerModel, a.answerRefused, a.citations, u.at)
  }

  /** A user turn joined to every row that matches it, or to NULLs when none does. */
  function JoinRow(turns: seq<Turn>, u: Turn): seq<Exchange>
    requires u.intent.Some?
  {
    var matches := Matches(turns, u);
    if matches == [] then [Rejoined(u, None)]
    else seq(|matches|, j requires 0 <= j < |matches| => Rejoined(u, Some(matches[j])))
  }

  predicate UsersHaveIntent(turns: seq<Turn>) {
    forall p :: 0 <= p < |turns| && turns[p].role == User ==> turns[p].intent.Some?
  }

  /** The INSERT ... SELECT of the downgrade, over the first `n` turns. */
  function Downgraded(turns: seq<Turn>, n: nat): seq<Exchange>
    requires n <= |turns| && UsersHaveIntent(turns)
  {
    if n == 0 then []
    else Downgraded(turns, n - 1) + if turns[n - 1].role == User then JoinRow(turns, turns[n - 1]) else []
  }

  function Downgrade(turns: seq<Turn>): seq<Exchange>
    requires UsersHaveIntent(turns)
  {
    Downgraded(turns, |turns|)
  }

  // ---------------------------------------------------------------------------------------
  // What the round trip keeps
  // ---------------------------------------------------------------------------------------

  /** A row whose answer is missing or blank comes back with nothing about an answer. */
  function Normalised(r: Exchange): Exchange {
    if HasAnswer(r) then r
    else r.(answer := None, answerModel := None, answerRefused := None, citations := NO_CITATIONS)
  }

  /** A row as the round trip gives it back, up to its surrogate key. */
  function Kept(r: Exchange): Exchange {
    Stripped(Normalised(r))
  }

  predicate IsNormal(r: Exchange) {
    || HasAnswer(r)
    || (r.answer.None? && r.answerModel.None? && r.answerRefused.None? && r.citations == NO_CITATIONS)
  }
}
