/** The rows of the repository's four tables (reactions, syntheses, the
    synthesis-reaction lines, users) and the queries over them, as functions
    on values. Row ids are positions: the row with id `n` is at index `n - 1`,
    so id 0 never names a row, and GORM's `First` (the smallest id that
    matches) is the first match in the sequence. */
module Tables {
  import opened Basics

  /** The five status literals a synthesis order carries. */
  datatype Status = Draft | Formed | Completed | Rejected | Deleted

  /** The text stored in the `status` column. */
  function Label(s: Status): string {
    match s
    case Draft => "черновик"
    case Formed => "сформирован"
    case Completed => "завершён"
    case Rejected => "отклонён"
    case Deleted => "удалён"
  }

  /** A catalog entry. `src` and `srcUr` are image references. */
  datatype Reaction = Reaction(
    title: string,
    details: string,
    src: string,
    srcUr: string,
    isDelete: bool,
    startingMaterial: string,
    densitySM: real,
    molarMassSM: int,
    resultMaterial: string,
    densityRM: real,
    molarMassRM: int)

  /** A synthesis order. Times are instants of an abstract clock; `purity`
      is 0 until it is set. */
  datatype Synthesis = Synthesis(
    status: Status,
    dateCreate: nat,
    dateUpdate: nat,
    dateFinish: Option<nat>,
    creatorID: nat,
    moderatorID: nat,
    purity: real)

  /** A row of the synthesis-reaction table. */
  datatype Line = Line(synthesisID: nat, reactionID: nat, count: nat, volumeSM: real, volumeRM: real)

  datatype User = User(login: string, password: string, fio: string, isModerator: bool)

  /** One kind per distinct error message of the repository. */
  datatype Error =
    | ReactionNotFound
    | SynthesisNotFound
    | DraftNotFound
    | FormedNotFound
    | LineNotFound
    | PurityOutOfRange
    | PurityMissing
    | NoReactions
    | TitleRequired
    | UploadFailed
    | LoginEmpty
    | PasswordEmpty
    | LoginTaken
    | BadCredentials

  datatype Outcome = Done | Failed(error: Error)

  datatype Result<T> = Ok(value: T) | Err(error: Error)

  /** The moderator id every new draft receives (`GetModeratorID`). */
  const DefaultModeratorID: nat := 2

  /* ---------------------------------------------------------------- reactions */

  /** `GetReaction`: a row that exists and is not soft-deleted. */
  function LiveReaction(rs: seq<Reaction>, id: int): (r: Option<Reaction>)
    ensures r.Some? <==> 1 <= id <= |rs| && !rs[id - 1].isDelete
    ensures r.Some? ==> r.value == rs[id - 1]
  {
    if 1 <= id <= |rs| && !rs[id - 1].isDelete then Some(rs[id - 1]) else None
  }

  /** Writing row `id` decides its own lookup by the new row's flag and
      leaves the lookup of every other id as it was. */
  lemma LiveAfterWrite(rs: seq<Reaction>, id: int, x: Reaction)
    requires 1 <= id <= |rs|
    ensures LiveReaction(rs[id - 1 := x], id) == if x.isDelete then None else Some(x)
    ensures forall j :: j != id ==> LiveReaction(rs[id - 1 := x], j) == LiveReaction(rs, j)
  {
  }

  /** An appended row is found under the next id unless it carries the flag;
      every other lookup is unchanged. */
  lemma LiveAfterAppend(rs: seq<Reaction>, x: Reaction)
    ensures LiveReaction(rs + [x], |rs| + 1) == if x.isDelete then None else Some(x)
    ensures forall j :: j != |rs| + 1 ==> LiveReaction(rs + [x], j) == LiveReaction(rs, j)
  {
  }

  /** A row that exists and carries the soft-delete flag. */
  predicate SoftDeleted(rs: seq<Reaction>, id: nat) {
    1 <= id <= |rs| && rs[id - 1].isDelete
  }

  /** The columns of the reactions table that `ChangeReaction` can write. */
  datatype Field =
    | Title | Details | Src | SrcUr | IsDelete | StartingMaterial
    | DensitySM | MolarMassSM | ResultMaterial | DensityRM | MolarMassRM

  /** The column each field is stored in. */
  function ColumnName(f: Field): string {
    match f
    case Title => "title"
    case Details => "details"
    case Src => "src"
    case SrcUr => "src_ur"
    case IsDelete => "is_delete"
    case StartingMaterial => "starting_material"
    case DensitySM => "density_sm"
    case MolarMassSM => "molar_mass_sm"
    case ResultMaterial => "result_material"
    case DensityRM => "density_rm"
    case MolarMassRM => "molar_mass_rm"
  }

  /** One value of the column map `ChangeReaction` builds. */
  datatype Column = Text(text: string) | Flag(flag: bool) | Number(number: real) | Whole(whole: int)

  /** The column map `ChangeReaction` builds from the request, before any key
      is dropped: every field, with the request's value. */
  function Columns(d: Reaction): map<Field, Column> {
    map[
      Title := Text(d.title),
      Src := Text(d.src),
      SrcUr := Text(d.srcUr),
      Details := Text(d.details),
      IsDelete := Flag(d.isDelete),
      StartingMaterial := Text(d.startingMaterial),
      DensitySM := Number(d.densitySM),
      MolarMassSM := Whole(d.molarMassSM),
      ResultMaterial := Text(d.resultMaterial),
      DensityRM := Number(d.densityRM),
      MolarMassRM := Whole(d.molarMassRM)]
  }

  function TextOr(cols: map<Field, Column>, f: Field, current: string): string {
    if f in cols && cols[f].Text? then cols[f].text else current
  }

  function FlagOr(cols: map<Field, Column>, f: Field, current: bool): bool {
    if f in cols && cols[f].Flag? then cols[f].flag else current
  }

  function NumberOr(cols: map<Field, Column>, f: Field, current: real): real {
    if f in cols && cols[f].Number? then cols[f].number else current
  }

  function WholeOr(cols: map<Field, Column>, f: Field, current: int): int {
    if f in cols && cols[f].Whole? then cols[f].whole else current
  }

  /** GORM's `Updates` with a column map: every column named in the map is
      written, the others keep their values. */
  function ApplyColumns(r: Reaction, cols: map<Field, Column>): Reaction {
    Reaction(
      TextOr(cols, Title, r.title),
      TextOr(cols, Details, r.details),
      TextOr(cols, Src, r.src),
      TextOr(cols, SrcUr, r.srcUr),
      FlagOr(cols, IsDelete, r.isDelete),
      TextOr(cols, StartingMaterial, r.startingMaterial),
      NumberOr(cols, DensitySM, r.densitySM),
      WholeOr(cols, MolarMassSM, r.molarMassSM),
      TextOr(cols, ResultMaterial, r.resultMaterial),
      NumberOr(cols, DensityRM, r.densityRM),
      WholeOr(cols, MolarMassRM, r.molarMassRM))
  }

  /** The column map without the keys whose value is the empty string. */
  function NonEmptyColumns(cols: map<Field, Column>): map<Field, Column> {
    map f | f in cols && cols[f] != Text("") :: cols[f]
  }

  /** What a change request does to a reaction, field by field: a text field
      changes only when the request gives a non-empty text, while the flag and
      the numbers are always written, zero and `false` included. */
  function MergeReaction(r: Reaction, d: Reaction): Reaction {
    Reaction(
      if d.title == "" then r.title else d.title,
      if d.details == "" then r.details else d.details,
      if d.src == "" then r.src else d.src,
      if d.srcUr == "" then r.srcUr else d.srcUr,
      d.isDelete,
      if d.startingMaterial == "" then r.startingMaterial else d.startingMaterial,
      d.densitySM,
      d.molarMassSM,
      if d.resultMaterial == "" then r.resultMaterial else d.resultMaterial,
      d.densityRM,
      d.molarMassRM)
  }

  /** Dropping the empty texts and writing the remaining columns is the
      field-by-field merge. */
  lemma ChangeMerges(r: Reaction, d: Reaction)
    ensures ApplyColumns(r, NonEmptyColumns(Columns(d))) == MergeReaction(r, d)
  {
  }

  /* ---------------------------------------------------------------- syntheses */

  predicate IsDraftOf(s: Synthesis, creator: nat) {
    s.status == Draft && s.creatorID == creator
  }

  /** The first draft of `creator` at or after position `i`. */
  function FirstDraft(ss: seq<Synthesis>, creator: nat, i: nat): (k: Option<nat>)
    requires i <= |ss|
    ensures k.Some? ==> i <= k.value < |ss| && IsDraftOf(ss[k.value], creator)
    ensures k.Some? ==> forall j :: i <= j < k.value ==> !IsDraftOf(ss[j], creator)
    ensures k.None? ==> forall j :: i <= j < |ss| ==> !IsDraftOf(ss[j], creator)
    decreases |ss| - i
  {
    if i == |ss| then None
    else if IsDraftOf(ss[i], creator) then Some(i)
    else FirstDraft(ss, creator, i + 1)
  }

  /** `GetSynthesisID`: the id of the creator's draft, 0 when there is none. */
  function DraftID(ss: seq<Synthesis>, creator: nat): (id: nat)
    ensures id == 0 <==> forall j :: 0 <= j < |ss| ==> !IsDraftOf(ss[j], creator)
    ensures id != 0 ==> id <= |ss| && IsDraftOf(ss[id - 1], creator)
    ensures id != 0 ==> forall j :: 0 <= j < id - 1 ==> !IsDraftOf(ss[j], creator)
  {
    match FirstDraft(ss, creator, 0)
    case Some(k) => k + 1
    case None => 0
  }

  /** The count query `AddReactionInSynthesis` runs: how many drafts the
      creator has. */
  function DraftCount(ss: seq<Synthesis>, creator: nat): nat
    decreases |ss|
  {
    if ss == [] then 0
    else (if IsDraftOf(ss[0], creator) then 1 else 0) + DraftCount(ss[1..], creator)
  }

  /** The count is zero exactly when the creator has no draft. */
  lemma {:induction false} DraftCountZero(ss: seq<Synthesis>, creator: nat)
    ensures DraftCount(ss, creator) == 0 <==> forall j :: 0 <= j < |ss| ==> !IsDraftOf(ss[j], creator)
    decreases |ss|
  {
    if ss != [] {
      DraftCountZero(ss[1..], creator);
      assert forall j :: 1 <= j < |ss| ==> ss[j] == ss[1..][j - 1];
    }
  }

  /** At most one draft per creator. */
  ghost predicate OneDraftPerCreator(ss: seq<Synthesis>) {
    forall i, j :: 0 <= i < j < |ss| && ss[i].status == Draft && ss[j].status == Draft ==> ss[i].creatorID != ss[j].creatorID
  }

  /** Under the invariant, the count query never sees more than one draft. */
  lemma {:induction false} DraftCountAtMostOne(ss: seq<Synthesis>, creator: nat)
    requires OneDraftPerCreator(ss)
    ensures DraftCount(ss, creator) <= 1
    decreases |ss|
  {
    if ss != [] {
      var tail := ss[1..];
      assert forall j :: 0 <= j < |tail| ==> tail[j] == ss[j + 1];
      DraftCountAtMostOne(tail, creator);
      if IsDraftOf(ss[0], creator) {
        forall j | 0 <= j < |tail| ensures !IsDraftOf(tail[j], creator) {
          assert ss[j + 1] == tail[j];
        }
        DraftCountZero(tail, creator);
      }
    }
  }

  /** A purity is 0 while unset and otherwise within (0, 100]; every order
      that has passed forming carries a set purity. */
  ghost predicate PurityInRange(ss: seq<Synthesis>) {
    forall i :: 0 <= i < |ss| ==>
      && 0.0 <= ss[i].purity <= 100.0
      && (ss[i].status == Formed || ss[i].status == Completed || ss[i].status == Rejected ==> 0.0 < ss[i].purity)
  }

  ghost predicate SynthesesValid(ss: seq<Synthesis>) {
    OneDraftPerCreator(ss) && PurityInRange(ss)
  }

  /** The order `AddReactionInSynthesis` creates for a creator without one. */
  function NewDraft(creator: nat, now: nat): Synthesis {
    Synthesis(Draft, now, now, None, creator, DefaultModeratorID, 0.0)
  }

  /** Order `id` exists and has status `st`. */
  predicate HasStatus(ss: seq<Synthesis>, id: nat, st: Status) {
    1 <= id <= |ss| && ss[id - 1].status == st
  }

  /** Appending a draft for a creator who has none keeps the invariant and
      makes it that creator's draft. */
  lemma AppendDraft(ss: seq<Synthesis>, creator: nat, now: nat)
    requires SynthesesValid(ss)
    requires DraftID(ss, creator) == 0
    ensures SynthesesValid(ss + [NewDraft(creator, now)])
    ensures DraftID(ss + [NewDraft(creator, now)], creator) == |ss| + 1
  {
    var ss' := ss + [NewDraft(creator, now)];
    assert forall j :: 0 <= j < |ss| ==> ss'[j] == ss[j];
    var id := DraftID(ss', creator);
    assert id != 0 by { assert IsDraftOf(ss'[|ss|], creator); }
  }

  /** Replacing one order by another that is not a draft, or a draft of the
      same creator, keeps at most one draft per creator. */
  lemma ReplaceSynthesis(ss: seq<Synthesis>, i: nat, s: Synthesis)
    requires SynthesesValid(ss) && i < |ss|
    requires s.status != Draft || (ss[i].status == Draft && s.creatorID == ss[i].creatorID)
    requires 0.0 <= s.purity <= 100.0
    requires s.status == Formed || s.status == Completed || s.status == Rejected ==> 0.0 < s.purity
    ensures SynthesesValid(ss[i := s])
  {
  }

  /** Whether user `userId` is a moderator; a missing user is not. */
  function IsModerator(us: seq<User>, userId: nat): bool {
    1 <= userId <= |us| && us[userId - 1].isModerator
  }

  /** The `GetSyntheses` filter (without its date bounds): never a draft, never
      a deleted order; a moderator sees every creator's, anyone else only
      their own; a non-empty status text must match the stored one. */
  predicate Listed(s: Synthesis, userId: nat, moderator: bool, status: string) {
    && s.status != Deleted
    && s.status != Draft
    && (moderator || s.creatorID == userId)
    && (status == "" || Label(s.status) == status)
  }

  /** The listed orders at or after position `i`, with their ids, in id order. */
  function ListFrom(ss: seq<Synthesis>, userId: nat, moderator: bool, status: string, i: nat)
    : (r: seq<(nat, Synthesis)>)
    requires i <= |ss|
    ensures forall p :: 0 <= p < |r| ==>
      i + 1 <= r[p].0 <= |ss| && ss[r[p].0 - 1] == r[p].1 && Listed(r[p].1, userId, moderator, status)
    ensures forall p, q :: 0 <= p < q < |r| ==> r[p].0 < r[q].0
    decreases |ss| - i
  {
    if i == |ss| then []
    else
      var rest := ListFrom(ss, userId, moderator, status, i + 1);
      if Listed(ss[i], userId, moderator, status) then
        var r := [(i + 1, ss[i])] + rest;
        assert forall p :: 1 <= p < |r| ==> r[p] == rest[p - 1];
        r
      else rest
  }

  /** Every listed order at or after position `i` appears in the listing. */
  lemma {:induction false} ListFromComplete(ss: seq<Synthesis>, userId: nat, moderator: bool, status: string, i: nat, j: nat)
    requires i <= j < |ss| && Listed(ss[j], userId, moderator, status)
    ensures (j + 1, ss[j]) in ListFrom(ss, userId, moderator, status, i)
    decreases j - i
  {
    if i < j {
      ListFromComplete(ss, userId, moderator, status, i + 1, j);
    }
  }

  /* ---------------------------------------------------------------- lines */

  predicate SameKey(l: Line, sid: nat, rid: nat) {
    l.synthesisID == sid && l.reactionID == rid
  }

  /** At most one line per (synthesis, reaction) pair. */
  ghost predicate UniqueLines(ls: seq<Line>) {
    forall i, j :: 0 <= i < j < |ls| ==> !SameKey(ls[j], ls[i].synthesisID, ls[i].reactionID)
  }

  /** Unique pairs, every count at least 1, every line in an existing order. */
  ghost predicate LinesValid(ls: seq<Line>, orders: nat) {
    && UniqueLines(ls)
    && (forall i :: 0 <= i < |ls| ==> ls[i].count >= 1)
    && (forall i :: 0 <= i < |ls| ==> 1 <= ls[i].synthesisID <= orders)
  }

  /** The first line of the pair at or after position `i`. */
  function FindLine(ls: seq<Line>, sid: nat, rid: nat, i: nat): (k: Option<nat>)
    requires i <= |ls|
    ensures k.Some? ==> i <= k.value < |ls| && SameKey(ls[k.value], sid, rid)
    ensures k.Some? ==> forall j :: i <= j < k.value ==> !SameKey(ls[j], sid, rid)
    ensures k.None? ==> forall j :: i <= j < |ls| ==> !SameKey(ls[j], sid, rid)
    decreases |ls| - i
  {
    if i == |ls| then None
    else if SameKey(ls[i], sid, rid) then Some(i)
    else FindLine(ls, sid, rid, i + 1)
  }

  /** The `First` query on the pair. */
  function LineIndex(ls: seq<Line>, sid: nat, rid: nat): Option<nat> {
    FindLine(ls, sid, rid, 0)
  }

  /** How many times the reaction was added to the order: the pair's count,
      0 when it has no line. */
  function Quantity(ls: seq<Line>, sid: nat, rid: nat): nat {
    match LineIndex(ls, sid, rid)
    case Some(k) => ls[k].count
    case None => 0
  }

  /** With unique pairs, the query finds the one line of the pair. */
  lemma LineIndexOfUnique(ls: seq<Line>, k: nat)
    requires UniqueLines(ls) && k < |ls|
    ensures LineIndex(ls, ls[k].synthesisID, ls[k].reactionID) == Some(k)
  {
  }

  /** Rewriting a line without changing its pair: only that pair's quantity
      can change. */
  lemma QuantityAfterUpdate(ls: seq<Line>, k: nat, l: Line, sid: nat, rid: nat)
    requires UniqueLines(ls) && k < |ls|
    requires SameKey(l, ls[k].synthesisID, ls[k].reactionID)
    ensures UniqueLines(ls[k := l])
    ensures Quantity(ls[k := l], sid, rid) == if SameKey(l, sid, rid) then l.count else Quantity(ls, sid, rid)
  {
    var ls' := ls[k := l];
    assert forall j :: 0 <= j < |ls| ==> SameKey(ls'[j], ls[j].synthesisID, ls[j].reactionID);
    if SameKey(l, sid, rid) {
      LineIndexOfUnique(ls', k);
    } else {
      match LineIndex(ls, sid, rid)
      case Some(m) =>
        LineIndexOfUnique(ls', m);
      case None =>
        assert forall j :: 0 <= j < |ls'| ==> !SameKey(ls'[j], sid, rid);
    }
  }

  /** Appending a line for a pair that has none: the pair gets the new line's
      count, every other quantity stays. */
  lemma QuantityAfterAppend(ls: seq<Line>, l: Line, sid: nat, rid: nat)
    requires UniqueLines(ls)
    requires LineIndex(ls, l.synthesisID, l.reactionID).None?
    ensures UniqueLines(ls + [l])
    ensures Quantity(ls + [l], sid, rid) == if SameKey(l, sid, rid) then l.count else Quantity(ls, sid, rid)
  {
    var ls' := ls + [l];
    assert forall j :: 0 <= j < |ls| ==> ls'[j] == ls[j];
    assert UniqueLines(ls') by {
      forall i, j | 0 <= i < j < |ls'| ensures !SameKey(ls'[j], ls'[i].synthesisID, ls'[i].reactionID) {
        if j == |ls| {
          assert !SameKey(ls[i], l.synthesisID, l.reactionID);
        }
      }
    }
    if SameKey(l, sid, rid) {
      LineIndexOfUnique(ls', |ls|);
    } else {
      match LineIndex(ls, sid, rid)
      case Some(m) =>
        LineIndexOfUnique(ls', m);
      case None =>
        assert forall j :: 0 <= j < |ls'| ==> !SameKey(ls'[j], sid, rid);
    }
  }

  /** Deleting a line: its pair's quantity drops to 0, every other stays. */
  lemma QuantityAfterRemove(ls: seq<Line>, k: nat, sid: nat, rid: nat)
    requires UniqueLines(ls) && k < |ls|
    ensures UniqueLines(ls[..k] + ls[k + 1..])
    ensures Quantity(ls[..k] + ls[k + 1..], sid, rid)
            == if SameKey(ls[k], sid, rid) then 0 else Quantity(ls, sid, rid)
  {
    var ls' := ls[..k] + ls[k + 1..];
    assert forall j :: 0 <= j < k ==> ls'[j] == ls[j];
    assert forall j :: k <= j < |ls'| ==> ls'[j] == ls[j + 1];
    assert UniqueLines(ls') by {
      forall i, j | 0 <= i < j < |ls'| ensures !SameKey(ls'[j], ls'[i].synthesisID, ls'[i].reactionID) {
        var i0 := if i < k then i else i + 1;
        var j0 := if j < k then j else j + 1;
        assert ls'[i] == ls[i0] && ls'[j] == ls[j0] && i0 < j0;
      }
    }
    if SameKey(ls[k], sid, rid) {
      forall j | 0 <= j < |ls'| ensures !SameKey(ls'[j], sid, rid) {
        var j0 := if j < k then j else j + 1;
        assert ls'[j] == ls[j0] && j0 != k;
        if j0 < k {
          assert !SameKey(ls[k], ls[j0].synthesisID, ls[j0].reactionID);
        }
      }
    } else {
      match LineIndex(ls, sid, rid)
      case Some(m) =>
        var m' := if m < k then m else m - 1;
        assert ls'[m'] == ls[m];
        LineIndexOfUnique(ls', m');
      case None =>
        assert forall j :: 0 <= j < |ls'| ==> !SameKey(ls'[j], sid, rid);
    }
  }

  /** The number of rows of the order, hidden ones included (the count
      queries of `FormSynthesis` and `GetSynthesisCount`). */
  function RowsOf(ls: seq<Line>, sid: nat): nat
    decreases |ls|
  {
    if ls == [] then 0
    else (if ls[0].synthesisID == sid then 1 else 0) + RowsOf(ls[1..], sid)
  }

  /** An order has rows exactly when some line belongs to it. */
  lemma {:induction false} RowsOfPositive(ls: seq<Line>, sid: nat)
    ensures RowsOf(ls, sid) > 0 <==> exists k :: 0 <= k < |ls| && ls[k].synthesisID == sid
    decreases |ls|
  {
    if ls != [] {
      RowsOfPositive(ls[1..], sid);
      if RowsOf(ls[1..], sid) > 0 {
        var k :| 0 <= k < |ls[1..]| && ls[1..][k].synthesisID == sid;
        assert ls[k + 1].synthesisID == sid;
      }
      if exists k :: 1 <= k < |ls| && ls[k].synthesisID == sid {
        var k :| 1 <= k < |ls| && ls[k].synthesisID == sid;
        assert ls[1..][k - 1].synthesisID == sid;
      }
    }
  }

  /** The lines that `keep` accepts, in their stored order. */
  function Filter(ls: seq<Line>, keep: Line -> bool): (r: seq<Line>)
    ensures |r| <= |ls|
    ensures forall l :: l in r <==> l in ls && keep(l)
    decreases |ls|
  {
    if ls == [] then []
    else (if keep(ls[0]) then [ls[0]] else []) + Filter(ls[1..], keep)
  }

  /** Filtering twice is filtering once by both tests. */
  lemma {:induction false} FilterTwice(ls: seq<Line>, k1: Line -> bool, k2: Line -> bool, k3: Line -> bool)
    requires forall l :: k3(l) == (k1(l) && k2(l))
    ensures Filter(Filter(ls, k1), k2) == Filter(ls, k3)
    decreases |ls|
  {
    if ls != [] {
      FilterTwice(ls[1..], k1, k2, k3);
      var f1 := Filter(ls, k1);
      if k1(ls[0]) {
        assert f1 == [ls[0]] + Filter(ls[1..], k1);
        assert f1[0] == ls[0] && f1[1..] == Filter(ls[1..], k1);
        assert Filter(f1, k2) == (if k2(ls[0]) then [ls[0]] else []) + Filter(Filter(ls[1..], k1), k2);
      } else {
        assert f1 == Filter(ls[1..], k1);
      }
    }
  }

  /** Filtering by two tests that agree on every line gives the same lines. */
  lemma {:induction false} FilterAgree(ls: seq<Line>, k1: Line -> bool, k2: Line -> bool)
    requires forall l :: k1(l) == k2(l)
    ensures Filter(ls, k1) == Filter(ls, k2)
    decreases |ls|
  {
    if ls != [] {
      FilterAgree(ls[1..], k1, k2);
    }
  }

  /** A filter that keeps everything is the identity. */
  lemma {:induction false} FilterAll(ls: seq<Line>)
    ensures Filter(ls, l => true) == ls
    decreases |ls|
  {
    if ls != [] {
      FilterAll(ls[1..]);
    }
  }

  /** Deleting lines keeps pairs unique, counts positive and owners existing. */
  lemma {:induction false} FilterValid(ls: seq<Line>, keep: Line -> bool, orders: nat)
    requires LinesValid(ls, orders)
    ensures LinesValid(Filter(ls, keep), orders)
    decreases |ls|
  {
    if ls != [] {
      var tail := ls[1..];
      assert forall j :: 0 <= j < |tail| ==> tail[j] == ls[j + 1];
      assert LinesValid(tail, orders) by {
        forall i, j | 0 <= i < j < |tail| ensures !SameKey(tail[j], tail[i].synthesisID, tail[i].reactionID) {
          assert tail[i] == ls[i + 1] && tail[j] == ls[j + 1];
        }
      }
      FilterValid(tail, keep, orders);
      var rest := Filter(tail, keep);
      if keep(ls[0]) {
        var r := [ls[0]] + rest;
        assert forall j :: 1 <= j < |r| ==> r[j] == rest[j - 1];
        forall i, j | 0 <= i < j < |r| ensures !SameKey(r[j], r[i].synthesisID, r[i].reactionID) {
          if i == 0 {
            assert r[j] in tail;
            var t :| 0 <= t < |tail| && tail[t] == r[j];
            assert ls[t + 1] == r[j];
          }
        }
        assert Filter(ls, keep) == r;
      }
    }
  }

  /** Lines whose reaction is soft-deleted among the first `bound` reactions. */
  predicate PurgedUpTo(rs: seq<Reaction>, bound: nat, l: Line)
    requires bound <= |rs|
  {
    1 <= l.reactionID <= bound && rs[l.reactionID - 1].isDelete
  }

  /** The lines left once the lines of the first `bound` soft-deleted
      reactions are removed. */
  function Purged(ls: seq<Line>, rs: seq<Reaction>, bound: nat): seq<Line>
    requires bound <= |rs|
  {
    Filter(ls, l => !PurgedUpTo(rs, bound, l))
  }

  /** The lines that do not belong to reaction `rid` (one step of the cleanup). */
  function WithoutReaction(ls: seq<Line>, rid: nat): seq<Line> {
    Filter(ls, (l: Line) => l.reactionID != rid)
  }

  /** One step of the cleanup loop: removing the lines of reaction `i + 1`
      extends the purge by that reaction when it is soft-deleted; when it is
      not, the purge is already extended. */
  lemma PurgeStep(ls: seq<Line>, rs: seq<Reaction>, i: nat)
    requires i < |rs|
    ensures rs[i].isDelete ==> WithoutReaction(Purged(ls, rs, i), i + 1) == Purged(ls, rs, i + 1)
    ensures !rs[i].isDelete ==> Purged(ls, rs, i) == Purged(ls, rs, i + 1)
  {
    if rs[i].isDelete {
      FilterTwice(ls, l => !PurgedUpTo(rs, i, l), (l: Line) => l.reactionID != i + 1, l => !PurgedUpTo(rs, i + 1, l));
    } else {
      FilterAgree(ls, l => !PurgedUpTo(rs, i, l), l => !PurgedUpTo(rs, i + 1, l));
    }
  }

  /** After the full purge no line references a soft-deleted reaction, and
      every line that referenced none is still there. */
  lemma PurgedExactly(ls: seq<Line>, rs: seq<Reaction>, l: Line)
    ensures l in Purged(ls, rs, |rs|) <==> l in ls && !SoftDeleted(rs, l.reactionID)
  {
  }

  /* ---------------------------------------------------------------- projection */

  /** One element of `GetSynthesisWithCounts`: the reaction with its id and
      the line's count and volumes. */
  datatype LineView = LineView(reactionID: nat, reaction: Reaction, count: nat, volumeSM: real, volumeRM: real)

  /** A line the projection of order `sid` shows: it belongs to the order and
      its reaction passes `GetReaction`. */
  predicate Shown(rs: seq<Reaction>, sid: nat, l: Line) {
    l.synthesisID == sid && LiveReaction(rs, l.reactionID).Some?
  }

  function View(rs: seq<Reaction>, l: Line): LineView
    requires LiveReaction(rs, l.reactionID).Some?
  {
    LineView(l.reactionID, LiveReaction(rs, l.reactionID).value, l.count, l.volumeSM, l.volumeRM)
  }

  /** `GetSynthesisWithCounts`: the loop over the order's lines that skips a
      line whose reaction is missing or soft-deleted. */
  function Project(ls: seq<Line>, rs: seq<Reaction>, sid: nat): seq<LineView>
    decreases |ls|
  {
    if ls == [] then []
    else (if Shown(rs, sid, ls[0]) then [View(rs, ls[0])] else []) + Project(ls[1..], rs, sid)
  }

  /** `GetSynthesis`: the same loop, keeping only the reactions. */
  function ProjectReactions(ls: seq<Line>, rs: seq<Reaction>, sid: nat): seq<Reaction>
    decreases |ls|
  {
    if ls == [] then []
    else
      (if ls[0].synthesisID == sid && LiveReaction(rs, ls[0].reactionID).Some?
       then [LiveReaction(rs, ls[0].reactionID).value] else [])
      + ProjectReactions(ls[1..], rs, sid)
  }

  /** The two read paths agree: `GetSynthesis` lists the reactions of the
      lines `GetSynthesisWithCounts` shows, in the same order. */
  lemma {:induction false} ProjectionsAgree(ls: seq<Line>, rs: seq<Reaction>, sid: nat)
    ensures |ProjectReactions(ls, rs, sid)| == |Project(ls, rs, sid)|
    ensures forall j :: 0 <= j < |Project(ls, rs, sid)| ==>
      ProjectReactions(ls, rs, sid)[j] == Project(ls, rs, sid)[j].reaction
    decreases |ls|
  {
    if ls != [] {
      ProjectionsAgree(ls[1..], rs, sid);
    }
  }

  /** The projection of a concatenation is the concatenation of projections. */
  lemma {:induction false} ProjectAppend(a: seq<Line>, b: seq<Line>, rs: seq<Reaction>, sid: nat)
    ensures Project(a + b, rs, sid) == Project(a, rs, sid) + Project(b, rs, sid)
    decreases |a|
  {
    if a == [] {
      assert a + b == b;
    } else {
      assert (a + b)[0] == a[0];
      assert (a + b)[1..] == a[1..] + b;
      ProjectAppend(a[1..], b, rs, sid);
    }
  }

  /** Where line `k` lands in the projection: the number of shown lines
      before it. */
  function Rank(ls: seq<Line>, rs: seq<Reaction>, sid: nat, k: nat): nat
    requires k <= |ls|
  {
    |Project(ls[..k], rs, sid)|
  }

  /** Every shown line appears, at its rank, with its own count and volumes. */
  lemma ProjectShows(ls: seq<Line>, rs: seq<Reaction>, sid: nat, k: nat)
    requires k < |ls| && Shown(rs, sid, ls[k])
    ensures Rank(ls, rs, sid, k) < |Project(ls, rs, sid)|
    ensures Project(ls, rs, sid)[Rank(ls, rs, sid, k)] == View(rs, ls[k])
  {
    assert ls == ls[..k] + ls[k..];
    ProjectAppend(ls[..k], ls[k..], rs, sid);
    assert ls[k..][0] == ls[k];
  }

  /** Rank grows by one exactly at a shown line: stored order is kept. */
  lemma RankStep(ls: seq<Line>, rs: seq<Reaction>, sid: nat, k: nat)
    requires k < |ls|
    ensures Rank(ls, rs, sid, k + 1) == Rank(ls, rs, sid, k) + (if Shown(rs, sid, ls[k]) then 1 else 0)
  {
    assert ls[..k + 1] == ls[..k] + [ls[k]];
    ProjectAppend(ls[..k], [ls[k]], rs, sid);
  }

  /** Shown lines keep their relative order in the projection. */
  lemma {:induction false} ProjectOrder(ls: seq<Line>, rs: seq<Reaction>, sid: nat, k1: nat, k2: nat)
    requires k1 < k2 < |ls| && Shown(rs, sid, ls[k1])
    ensures Rank(ls, rs, sid, k1) < Rank(ls, rs, sid, k2)
    decreases k2 - k1
  {
    RankStep(ls, rs, sid, k1);
    if k1 + 1 < k2 {
      RankMonotone(ls, rs, sid, k1 + 1, k2);
    }
  }

  lemma {:induction false} RankMonotone(ls: seq<Line>, rs: seq<Reaction>, sid: nat, a: nat, b: nat)
    requires a <= b <= |ls|
    ensures Rank(ls, rs, sid, a) <= Rank(ls, rs, sid, b)
    decreases b - a
  {
    if a < b {
      RankStep(ls, rs, sid, a);
      RankMonotone(ls, rs, sid, a + 1, b);
    }
  }

  /** Nothing else appears: every element is the view of a shown line of the
      order, sitting at that line's rank. */
  lemma {:induction false} ProjectOnlyShown(ls: seq<Line>, rs: seq<Reaction>, sid: nat, j: nat)
    requires j < |Project(ls, rs, sid)|
    ensures exists k :: 0 <= k < |ls| && Shown(rs, sid, ls[k]) && Rank(ls, rs, sid, k) == j
    decreases |ls|
  {
    var n := |ls|;
    assert ls[..n] == ls;
    RankFind(ls, rs, sid, j, n);
  }

  /** Below rank `Rank(b)`, every value is the rank of a shown line before `b`. */
  lemma {:induction false} RankFind(ls: seq<Line>, rs: seq<Reaction>, sid: nat, j: nat, b: nat)
    requires b <= |ls| && j < Rank(ls, rs, sid, b)
    ensures exists k :: 0 <= k < b && Shown(rs, sid, ls[k]) && Rank(ls, rs, sid, k) == j
    decreases b
  {
    assert ls[..0] == [];
    RankStep(ls, rs, sid, b - 1);
    if j < Rank(ls, rs, sid, b - 1) {
      RankFind(ls, rs, sid, j, b - 1);
    } else {
      assert Shown(rs, sid, ls[b - 1]) && Rank(ls, rs, sid, b - 1) == j;
    }
  }

  /** The projection never shows more lines than the order has rows. */
  lemma {:induction false} ProjectWithinRows(ls: seq<Line>, rs: seq<Reaction>, sid: nat)
    ensures |Project(ls, rs, sid)| <= RowsOf(ls, sid)
    decreases |ls|
  {
    if ls != [] {
      ProjectWithinRows(ls[1..], rs, sid);
    }
  }

  /* ---------------------------------------------------------------- users */

  /** Non-empty logins name at most one user. */
  ghost predicate UniqueLogins(us: seq<User>) {
    forall i, j :: 0 <= i < j < |us| && us[i].login != "" ==> us[j].login != us[i].login
  }

  /** The first user with that login at or after position `i`. */
  function FindLogin(us: seq<User>, login: string, i: nat): (k: Option<nat>)
    requires i <= |us|
    ensures k.Some? ==> i <= k.value < |us| && us[k.value].login == login
    ensures k.Some? ==> forall j :: i <= j < k.value ==> us[j].login != login
    ensures k.None? ==> forall j :: i <= j < |us| ==> us[j].login != login
    decreases |us| - i
  {
    if i == |us| then None
    else if us[i].login == login then Some(i)
    else FindLogin(us, login, i + 1)
  }

  /** `AuthUser`: the user with that login, if the stored password matches;
      the returned copy carries an empty password. */
  function Authenticate(us: seq<User>, login: string, password: string): (r: Result<(nat, User)>)
    ensures r.Ok? ==> 1 <= r.value.0 <= |us| && us[r.value.0 - 1].login == login
    ensures r.Ok? ==> forall i :: 0 <= i < r.value.0 - 1 ==> us[i].login != login
    ensures r.Ok? ==> us[r.value.0 - 1].password == password
    ensures r.Ok? ==> r.value.1 == us[r.value.0 - 1].(password := "")
    ensures r.Err? ==> r.error == BadCredentials
    ensures r.Err? ==> forall j :: 0 <= j < |us| && us[j].login == login ==> us[j].password != password || exists i :: 0 <= i < j && us[i].login == login
  {
    match FindLogin(us, login, 0)
    case None => Err(BadCredentials)
    case Some(k) =>
      if us[k].password != password then Err(BadCredentials)
      else Ok((k + 1, us[k].(password := "")))
  }

  /** Registering a fresh login with a password makes authentication with
      that login and password succeed, returning the new row. */
  lemma AuthenticateAfterRegister(us: seq<User>, login: string, password: string, fio: string)
    requires FindLogin(us, login, 0).None?
    ensures Authenticate(us + [User(login, password, fio, false)], login, password)
            == Ok((|us| + 1, User(login, "", fio, false)))
  {
    var us' := us + [User(login, password, fio, false)];
    assert forall j :: 0 <= j < |us| ==> us'[j] == us[j];
    assert us'[|us|].login == login;
  }

  /** Some user other than `userId` holds the login. */
  predicate LoginHeldByOther(us: seq<User>, login: string, userId: nat) {
    exists j :: 0 <= j < |us| && j + 1 != userId && us[j].login == login
  }

  /** The fields of a user that a profile update writes: "login" to the
      login, "name" to the display name. */
  function ApplyUserUpdates(u: User, updates: map<string, string>): User {
    u.(login := if "login" in updates then updates["login"] else u.login,
       fio := if "name" in updates then updates["name"] else u.fio)
  }
}
