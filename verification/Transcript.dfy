/**
 The rows of the chat transcript on both sides of migration 0028, and the constraints each
 schema puts on them. Surrogate keys are numbers; timestamps are microseconds.
 */
module Transcript {
  import opened Options
  import opened SessionGrouping

  type Uuid = nat

  /** Enough of `jsonb` to name the empty list. */
  datatype Json = JList(items: seq<Json>) | JObject(fields: seq<(string, Json)>) | JScalar(literal: string)

  const NO_CITATIONS := JList([])

  datatype Intent = Statement | Question | Both

  /** `chat_messages` as 0027 created it: a question and its answer on one row. */
  datatype Exchange = Exchange(
    id: Uuid,
    text: string,
    intent: Intent,
    externalKey: Option<string>,
    answer: Option<string>,
    answerModel: Option<string>,
    answerRefused: Option<bool>,
    citations: Json,
    at: Micros)

  datatype Role = User | Assistant

  /** `chat_messages` as 0028 leaves it: one row per turn. */
  datatype Turn = Turn(
    id: Uuid,
    session: Uuid,
    role: Role,
    content: string,
    ordinal: int,
    externalKey: Option<string>,
    intent: Option<Intent>,
    answerModel: Option<string>,
    answerRefused: Option<bool>,
    citations: Json,
    at: Micros)

  datatype ChatSession = ChatSession(id: Uuid, startedAt: Micros, lastActivity: Micros, messageCount: int)

  predicate AllSpaces(s: string) {
    forall k :: 0 <= k < |s| ==> s[k] == ' '
  }

  /** `r` is the slice of `s` from `i` to `j`, between nothing but spaces and without one at its ends. */
  predicate TrimsTo(s: string, r: string, i: int, j: int) {
    && 0 <= i <= j <= |s| && r == s[i..j] && AllSpaces(s[..i]) && AllSpaces(s[j..])
    && (r != "" ==> r[0] != ' ' && r[|r| - 1] != ' ')
  }

  /** `btrim` with one argument strips spaces and nothing else. */
  function Btrim(s: string): string {
    if s == "" then s
    else if s[0] == ' ' then Btrim(s[1..])
    else if s[|s| - 1] == ' ' then Btrim(s[..|s| - 1])
    else s
  }

  /** All the spaces at both ends go, and nothing else. */
  lemma {:induction false} BtrimTrims(s: string)
    ensures exists i, j :: TrimsTo(s, Btrim(s), i, j)
  {
    if s == "" {
      assert Btrim(s) == "" && TrimsTo(s, "", 0, 0);
    } else if s[0] == ' ' {
      BtrimTrims(s[1..]);
      TrimFront(s, Btrim(s[1..]));
      assert Btrim(s) == Btrim(s[1..]);
    } else if s[|s| - 1] == ' ' {
      BtrimTrims(s[..|s| - 1]);
      TrimBack(s, s[..|s| - 1], Btrim(s[..|s| - 1]));
      assert Btrim(s) == Btrim(s[..|s| - 1]);
    } else {
      assert s[..0] == "" && s[|s|..] == "" && s[0..|s|] == s;
      assert TrimsTo(s, Btrim(s), 0, |s|);
    }
  }

  lemma TrimFront(s: string, r: string)
    requires s != "" && s[0] == ' ' && exists i, j :: TrimsTo(s[1..], r, i, j)
    ensures exists i, j :: TrimsTo(s, r, i, j)
  {
    var i, j :| TrimsTo(s[1..], r, i, j);
    assert s[..i + 1] == [s[0]] + s[1..][..i] && s[j + 1..] == s[1..][j..];
    assert TrimsTo(s, r, i + 1, j + 1);
  }

  lemma TrimBack(s: string, t: string, r: string)
    requires s != "" && s[|s| - 1] == ' ' && t == s[..|s| - 1] && exists i, j :: TrimsTo(t, r, i, j)
    ensures exists i, j :: TrimsTo(s, r, i, j)
  {
    var i, j :| TrimsTo(t, r, i, j);
    assert s[..i] == t[..i] && s[j..] == t[j..] + [s[|s| - 1]];
    assert TrimsTo(s, r, i, j);
  }

  predicate Blank(s: string) {
    Btrim(s) == ""
  }

  /** Blank is: no character but the space. */
  lemma BlankIff(s: string)
    ensures Blank(s) <==> forall k :: 0 <= k < |s| ==> s[k] == ' '
  {
    var r := Btrim(s);
    BtrimTrims(s);
    var i, j :| TrimsTo(s, r, i, j);
    if r == "" {
      forall k | 0 <= k < |s| ensures s[k] == ' ' {
        assert k < i ==> s[..i][k] == ' ';
        assert k >= j ==> s[j..][k - j] == ' ';
      }
    } else {
      assert s[i] == r[0];
    }
  }

  // ---------------------------------------------------------------------------------------
  // 0027
  // ---------------------------------------------------------------------------------------

  /** The CHECK constraints of 0027, which the downgrade adds again. */
  predicate ExchangeChecks(r: Exchange) {
    && !Blank(r.text)
    && (r.intent == Question <==> r.externalKey.None?)
    && (r.intent != Statement || r.answer.None?)
    && (r.answer.None? <==> r.answerRefused.None?)
  }

  predicate DistinctIds(rows: seq<Exchange>) {
    forall i, j :: 0 <= i < j < |rows| ==> rows[i].id != rows[j].id
  }

  /** A `chat_messages` table the 0027 schema can hold, in whatever order the heap has it. */
  predicate Table27(rows: seq<Exchange>) {
    DistinctIds(rows) && forall i :: 0 <= i < |rows| ==> ExchangeChecks(rows[i])
  }

  /** A row without its surrogate key. */
  function Stripped(r: Exchange): Exchange {
    r.(id := 0)
  }

  function Map<T>(f: Exchange -> T, rows: seq<Exchange>): (mapped: seq<T>)
    ensures |mapped| == |rows|
    ensures forall i :: 0 <= i < |rows| ==> mapped[i] == f(rows[i])
  {
    seq(|rows|, i requires 0 <= i < |rows| => f(rows[i]))
  }

  // ---------------------------------------------------------------------------------------
  // 0028
  // ---------------------------------------------------------------------------------------

  /** The CHECK constraints 0028 adds after the load. */
  predicate TurnChecks(t: Turn) {
    && t.ordinal >= 0
    && !Blank(t.content)
    && (t.role == Assistant ==> t.intent.None? && t.externalKey.None?)
    && (t.role == User ==> t.answerModel.None? && t.answerRefused.None? && t.citations == NO_CITATIONS)
    && (t.role == User <==> t.intent.Some?)
    && (t.intent.Some? ==> (t.intent.value == Question <==> t.externalKey.None?))
  }

  predicate UniqueOrdinals(turns: seq<Turn>) {
    forall p, q :: 0 <= p < q < |turns| ==>
      turns[p].session != turns[q].session || turns[p].ordinal != turns[q].ordinal
  }

  predicate SessionChecks(s: ChatSession) {
    s.messageCount >= 0 && s.lastActivity >= s.startedAt
  }

  /** The foreign key from a turn to its session. */
  ghost predicate HasSession(sessions: seq<ChatSession>, t: Turn) {
    exists k :: 0 <= k < |sessions| && sessions[k].id == t.session
  }

  /** Every constraint of the 0028 schema: both keys, the foreign key, the unique and the CHECKs. */
  ghost predicate Tables28(sessions: seq<ChatSession>, turns: seq<Turn>) {
    && (forall k, l :: 0 <= k < l < |sessions| ==> sessions[k].id != sessions[l].id)
    && (forall k :: 0 <= k < |sessions| ==> SessionChecks(sessions[k]))
    && (forall p, q :: 0 <= p < q < |turns| ==> turns[p].id != turns[q].id)
    && (forall p :: 0 <= p < |turns| ==> TurnChecks(turns[p]))
    && (forall p :: 0 <= p < |turns| ==> HasSession(sessions, turns[p]))
    && UniqueOrdinals(turns)
  }
}
