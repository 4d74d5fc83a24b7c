/** The repository: the four tables held in memory and the guarded
    transitions over them. Every database call is taken to succeed; the
    clock is the `now` parameter. */
module Store {
  import opened Basics
  import opened Tables
  import opened ObjectName

  class Repository {
    var reactions: seq<Reaction>
    var syntheses: seq<Synthesis>
    var lines: seq<Line>
    var users: seq<User>

    /** At most one draft per creator, purity in range, at most one line per
        pair with a count of at least 1 in an existing order, and no two
        users sharing a non-empty login. */
    ghost predicate Valid()
      reads this
    {
      SynthesesValid(syntheses) && LinesValid(lines, |syntheses|) && UniqueLogins(users)
    }

    constructor(catalog: seq<Reaction>, accounts: seq<User>)
      requires UniqueLogins(accounts)
      ensures Valid()
      ensures reactions == catalog && syntheses == [] && lines == [] && users == accounts
    {
      reactions := catalog;
      syntheses := [];
      lines := [];
      users := accounts;
    }

    /* ------------------------------------------------------------ queries */

    function GetReaction(id: int): Option<Reaction>
      reads this
    {
      LiveReaction(reactions, id)
    }

    function GetSynthesisID(userID: nat): nat
      reads this
    {
      DraftID(syntheses, userID)
    }

    /** The number of rows of the caller's draft, 0 without a draft. */
    function GetSynthesisCount(creatorID: nat): nat
      reads this
    {
      var id := DraftID(syntheses, creatorID);
      if id == 0 then 0 else RowsOf(lines, id)
    }

    function GetSynthesisWithCounts(synthesisID: nat): seq<LineView>
      reads this
    {
      Project(lines, reactions, synthesisID)
    }

    function GetSynthesis(synthesisID: nat): seq<Reaction>
      reads this
    {
      ProjectReactions(lines, reactions, synthesisID)
    }

    /** The order list of `GetSyntheses`, without its date bounds. */
    function GetSyntheses(status: string, userId: nat): seq<(nat, Synthesis)>
      reads this
    {
      ListFrom(syntheses, userId, IsModerator(users, userId), status, 0)
    }

    function AuthUser(login: string, password: string): Result<(nat, User)>
      reads this
    {
      Authenticate(users, login, password)
    }

    /* ------------------------------------------------------------ order lines */

    /** Adds one unit of reaction `id` to the caller's draft, creating the
        draft first when the caller has none. The reaction is not checked. */
    method AddReactionInSynthesis(id: nat, userID: nat, now: nat) returns (synthesisID: nat)
      requires Valid()
      modifies this
      ensures Valid()
      ensures reactions == old(reactions) && users == old(users)
      ensures old(GetSynthesisID(userID)) != 0 ==>
        syntheses == old(syntheses) && synthesisID == old(GetSynthesisID(userID))
      ensures old(GetSynthesisID(userID)) == 0 ==>
        syntheses == old(syntheses) + [NewDraft(userID, now)] && synthesisID == |syntheses|
      ensures synthesisID != 0 && synthesisID == GetSynthesisID(userID)
      ensures match LineIndex(old(lines), synthesisID, id)
        case Some(k) => lines == old(lines)[k := old(lines)[k].(count := old(lines)[k].count + 1)]
        case None => lines == old(lines) + [Line(synthesisID, id, 1, 0.0, 0.0)]
      ensures forall s, r ::
        Quantity(lines, s, r) == Quantity(old(lines), s, r) + (if s == synthesisID && r == id then 1 else 0)
    {
      var count := DraftCount(syntheses, userID);
      DraftCountZero(syntheses, userID);
      if count == 0 {
        AppendDraft(syntheses, userID, now);
        syntheses := syntheses + [NewDraft(userID, now)];
      }
      synthesisID := DraftID(syntheses, userID);
      var before := lines;
      match LineIndex(lines, synthesisID, id) {
        case Some(k) =>
          var updated := lines[k].(count := lines[k].count + 1);
          lines := lines[k := updated];
          QuantityAfterUpdate(before, k, updated, 0, 0);
          forall s, r ensures Quantity(lines, s, r) == Quantity(before, s, r) + if s == synthesisID && r == id then 1 else 0 {
            QuantityAfterUpdate(before, k, updated, s, r);
          }
        case None =>
          var added := Line(synthesisID, id, 1, 0.0, 0.0);
          lines := lines + [added];
          QuantityAfterAppend(before, added, 0, 0);
          forall s, r ensures Quantity(lines, s, r) == Quantity(before, s, r) + if s == synthesisID && r == id then 1 else 0 {
            QuantityAfterAppend(before, added, s, r);
          }
      }
    }

    /** Takes one unit of a live reaction out of a draft; the line goes once
        its count reaches 0. */
    method RemoveReactionFromSynthesis(synthesisID: nat, reactionID: nat) returns (outcome: Outcome)
      requires Valid()
      modifies this
      ensures Valid()
      ensures reactions == old(reactions) && syntheses == old(syntheses) && users == old(users)
      ensures outcome ==
        if !HasStatus(syntheses, synthesisID, Draft) then Failed(DraftNotFound)
        else if GetReaction(reactionID).None? then Failed(ReactionNotFound)
        else if Quantity(old(lines), synthesisID, reactionID) == 0 then Failed(LineNotFound)
        else Done
      ensures outcome.Failed? ==> lines == old(lines)
      ensures outcome.Done? ==>
        var k := LineIndex(old(lines), synthesisID, reactionID).value;
        lines == if old(lines)[k].count == 1 then old(lines)[..k] + old(lines)[k + 1..]
                 else old(lines)[k := old(lines)[k].(count := old(lines)[k].count - 1)]
      ensures forall s, r ::
        Quantity(lines, s, r) == Quantity(old(lines), s, r) - (if outcome.Done? && s == synthesisID && r == reactionID then 1 else 0)
    {
      if !HasStatus(syntheses, synthesisID, Draft) {
        return Failed(DraftNotFound);
      }
      if LiveReaction(reactions, reactionID).None? {
        return Failed(ReactionNotFound);
      }
      var found := LineIndex(lines, synthesisID, reactionID);
      if found.None? {
        return Failed(LineNotFound);
      }
      var k := found.value;
      var before := lines;
      var count := lines[k].count - 1;
      if count == 0 {
        lines := lines[..k] + lines[k + 1..];
        QuantityAfterRemove(before, k, 0, 0);
        forall s, r ensures Quantity(lines, s, r) == Quantity(before, s, r) - if s == synthesisID && r == reactionID then 1 else 0 {
          QuantityAfterRemove(before, k, s, r);
        }
        assert forall j :: 0 <= j < |lines| ==> lines[j] in before;
      } else {
        var updated := lines[k].(count := count);
        lines := lines[k := updated];
        QuantityAfterUpdate(before, k, updated, 0, 0);
        forall s, r ensures Quantity(lines, s, r) == Quantity(before, s, r) - if s == synthesisID && r == reactionID then 1 else 0 {
          QuantityAfterUpdate(before, k, updated, s, r);
        }
      }
      outcome := Done;
    }

    /** Sets the starting-material volume of one line of a draft. */
    method UpdateReactionInSynthesis(synthesisID: nat, reactionID: nat, volume: real) returns (outcome: Outcome)
      requires Valid()
      modifies this
      ensures Valid()
      ensures reactions == old(reactions) && syntheses == old(syntheses) && users == old(users)
      ensures outcome ==
        if !HasStatus(syntheses, synthesisID, Draft) then Failed(DraftNotFound)
        else if GetReaction(reactionID).None? then Failed(ReactionNotFound)
        else if LineIndex(old(lines), synthesisID, reactionID).None? then Failed(LineNotFound)
        else Done
      ensures outcome.Failed? ==> lines == old(lines)
      ensures outcome.Done? ==>
        var k := LineIndex(old(lines), synthesisID, reactionID).value;
        lines == old(lines)[k := old(lines)[k].(volumeSM := volume)]
      ensures forall s, r :: Quantity(lines, s, r) == Quantity(old(lines), s, r)
    {
      if !HasStatus(syntheses, synthesisID, Draft) {
        return Failed(DraftNotFound);
      }
      if LiveReaction(reactions, reactionID).None? {
        return Failed(ReactionNotFound);
      }
      var found := LineIndex(lines, synthesisID, reactionID);
      if found.None? {
        return Failed(LineNotFound);
      }
      var k := found.value;
      var before := lines;
      var updated := lines[k].(volumeSM := volume);
      lines := lines[k := updated];
      QuantityAfterUpdate(before, k, updated, 0, 0);
      forall s, r ensures Quantity(lines, s, r) == Quantity(before, s, r) {
        QuantityAfterUpdate(before, k, updated, s, r);
      }
      outcome := Done;
    }

    /* ------------------------------------------------------------ order lifecycle */

    /** Sets the purity of a draft; only 0 < purity <= 100 is accepted. */
    method UpdateSynthesisPurity(synthesisID: nat, purity: real, now: nat) returns (outcome: Outcome)
      requires Valid()
      modifies this
      ensures Valid()
      ensures reactions == old(reactions) && lines == old(lines) && users == old(users)
      ensures outcome ==
        if !HasStatus(old(syntheses), synthesisID, Draft) then Failed(DraftNotFound)
        else if !(0.0 < purity <= 100.0) then Failed(PurityOutOfRange)
        else Done
      ensures outcome.Failed? ==> syntheses == old(syntheses)
      ensures outcome.Done? ==>
        syntheses == old(syntheses)[synthesisID - 1 := old(syntheses)[synthesisID - 1].(purity := purity, dateUpdate := now)]
    {
      if !HasStatus(syntheses, synthesisID, Draft) {
        return Failed(DraftNotFound);
      }
      if !(0.0 < purity <= 100.0) {
        return Failed(PurityOutOfRange);
      }
      var s := syntheses[synthesisID - 1].(purity := purity, dateUpdate := now);
      ReplaceSynthesis(syntheses, synthesisID - 1, s);
      syntheses := syntheses[synthesisID - 1 := s];
      outcome := Done;
    }

    /** Moves a draft with a set purity and at least one row to сформирован. */
    method FormSynthesis(synthesisID: nat, now: nat) returns (outcome: Outcome)
      requires Valid()
      modifies this
      ensures Valid()
      ensures reactions == old(reactions) && lines == old(lines) && users == old(users)
      ensures outcome ==
        if !HasStatus(old(syntheses), synthesisID, Draft) then Failed(DraftNotFound)
        else if !(0.0 < old(syntheses)[synthesisID - 1].purity <= 100.0) then Failed(PurityMissing)
        else if RowsOf(lines, synthesisID) == 0 then Failed(NoReactions)
        else Done
      ensures outcome.Failed? ==> syntheses == old(syntheses)
      ensures outcome.Done? ==>
        syntheses == old(syntheses)[synthesisID - 1 := old(syntheses)[synthesisID - 1].(status := Formed, dateUpdate := now)]
    {
      if !HasStatus(syntheses, synthesisID, Draft) {
        return Failed(DraftNotFound);
      }
      if !(0.0 < syntheses[synthesisID - 1].purity <= 100.0) {
        return Failed(PurityMissing);
      }
      if RowsOf(lines, synthesisID) == 0 {
        return Failed(NoReactions);
      }
      var s := syntheses[synthesisID - 1].(status := Formed, dateUpdate := now);
      ReplaceSynthesis(syntheses, synthesisID - 1, s);
      syntheses := syntheses[synthesisID - 1 := s];
      outcome := Done;
    }

    /** A moderator's decision on a formed order: завершён when `newStatus`,
        отклонён otherwise, recording the moderator and the finish time. */
    method CompleteOrRejectSynthesis(synthesisID: nat, moderatorID: nat, newStatus: bool, now: nat)
      returns (outcome: Outcome)
      requires Valid()
      modifies this
      ensures Valid()
      ensures reactions == old(reactions) && lines == old(lines) && users == old(users)
      ensures outcome == if HasStatus(old(syntheses), synthesisID, Formed) then Done else Failed(FormedNotFound)
      ensures outcome.Failed? ==> syntheses == old(syntheses)
      ensures outcome.Done? ==>
        syntheses == old(syntheses)[synthesisID - 1 := old(syntheses)[synthesisID - 1].(
          status := if newStatus then Completed else Rejected,
          dateUpdate := now, dateFinish := Some(now), moderatorID := moderatorID)]
    {
      if !HasStatus(syntheses, synthesisID, Formed) {
        return Failed(FormedNotFound);
      }
      var s := syntheses[synthesisID - 1].(
        status := if newStatus then Completed else Rejected,
        dateUpdate := now, dateFinish := Some(now), moderatorID := moderatorID);
      ReplaceSynthesis(syntheses, synthesisID - 1, s);
      syntheses := syntheses[synthesisID - 1 := s];
      outcome := Done;
    }

    /** Marks any existing order удалён, whatever its status. */
    method DeleteSynthesis(synthesisID: nat, now: nat) returns (outcome: Outcome)
      requires Valid()
      modifies this
      ensures Valid()
      ensures reactions == old(reactions) && lines == old(lines) && users == old(users)
      ensures outcome == if 1 <= synthesisID <= |old(syntheses)| then Done else Failed(SynthesisNotFound)
      ensures outcome.Failed? ==> syntheses == old(syntheses)
      ensures outcome.Done? ==>
        syntheses == old(syntheses)[synthesisID - 1 := old(syntheses)[synthesisID - 1].(status := Deleted, dateUpdate := now)]
    {
      if !(1 <= synthesisID <= |syntheses|) {
        return Failed(SynthesisNotFound);
      }
      var s := syntheses[synthesisID - 1].(status := Deleted, dateUpdate := now);
      ReplaceSynthesis(syntheses, synthesisID - 1, s);
      syntheses := syntheses[synthesisID - 1 := s];
      outcome := Done;
    }

    /** The page path's deletion: marks the order удалён and records the
        finish time; a missing id changes nothing, and it never reports a
        failure. */
    method RemoveSynthesis(id: nat, now: nat)
      requires Valid()
      modifies this
      ensures Valid()
      ensures reactions == old(reactions) && lines == old(lines) && users == old(users)
      ensures !(1 <= id <= |old(syntheses)|) ==> syntheses == old(syntheses)
      ensures 1 <= id <= |old(syntheses)| ==>
        syntheses == old(syntheses)[id - 1 := old(syntheses)[id - 1].(status := Deleted, dateFinish := Some(now), dateUpdate := now)]
    {
      if 1 <= id <= |syntheses| {
        var s := syntheses[id - 1].(status := Deleted, dateFinish := Some(now), dateUpdate := now);
        ReplaceSynthesis(syntheses, id - 1, s);
        syntheses := syntheses[id - 1 := s];
      }
    }

    /* ------------------------------------------------------------ catalog */

    /** Creates a reaction from the request; the image references are not
        part of the insert and start empty. */
    method AddReaction(reaction: Reaction) returns (outcome: Outcome)
      requires Valid()
      modifies this
      ensures Valid()
      ensures syntheses == old(syntheses) && lines == old(lines) && users == old(users)
      ensures outcome == if reaction.title == "" then Failed(TitleRequired) else Done
      ensures outcome.Failed? ==> reactions == old(reactions)
      ensures outcome.Done? ==> reactions == old(reactions) + [reaction.(src := "", srcUr := "")]
      ensures outcome.Done? ==>
        GetReaction(|reactions|) == if reaction.isDelete then None else Some(reaction.(src := "", srcUr := ""))
      ensures forall j :: j != |reactions| ==> GetReaction(j) == old(GetReaction(j))
    {
      if reaction.title == "" {
        return Failed(TitleRequired);
      }
      LiveAfterAppend(reactions, reaction.(src := "", srcUr := ""));
      reactions := reactions + [reaction.(src := "", srcUr := "")];
      outcome := Done;
    }

    /** Writes the request's fields onto a live reaction: text fields only
        when non-empty, the flag and the numbers always. */
    method ChangeReaction(id: nat, data: Reaction) returns (outcome: Outcome)
      requires Valid()
      modifies this
      ensures Valid()
      ensures syntheses == old(syntheses) && lines == old(lines) && users == old(users)
      ensures outcome == if old(GetReaction(id)).Some? then Done else Failed(ReactionNotFound)
      ensures outcome.Failed? ==> reactions == old(reactions)
      ensures outcome.Done? ==> reactions == old(reactions)[id - 1 := MergeReaction(old(reactions)[id - 1], data)]
      ensures outcome.Done? ==>
        GetReaction(id) == if data.isDelete then None else Some(MergeReaction(old(reactions)[id - 1], data))
      ensures forall j :: j != id ==> GetReaction(j) == old(GetReaction(j))
    {
      if LiveReaction(reactions, id).None? {
        return Failed(ReactionNotFound);
      }
      var updates := DropEmptyValues(Columns(data));
      ChangeMerges(reactions[id - 1], data);
      LiveAfterWrite(reactions, id, MergeReaction(reactions[id - 1], data));
      reactions := reactions[id - 1 := ApplyColumns(reactions[id - 1], updates)];
      outcome := Done;
    }

    /** Stores an uploaded image for a live reaction under the object name
        `img/reaction_<id>_<name>` and records its address in `src`.
        `stored` is the answer of the object store's put. */
    method UploadReactionImage(id: nat, name: string, stored: bool) returns (outcome: Outcome)
      requires Valid()
      modifies this
      ensures Valid()
      ensures syntheses == old(syntheses) && lines == old(lines) && users == old(users)
      ensures outcome ==
        if old(GetReaction(id)).None? then Failed(ReactionNotFound)
        else if !stored then Failed(UploadFailed)
        else Done
      ensures outcome.Failed? ==> reactions == old(reactions)
      ensures outcome.Done? ==>
        reactions == old(reactions)[id - 1 := old(reactions)[id - 1].(src := ImageSrc(ImageFileName(id, name)))]
      ensures outcome.Done? ==>
        (ExtractObjectName(reactions[id - 1].src, ImageBucket) == ImageFileName(id, name) <==> '?' !in name)
      ensures outcome.Done? ==> GetReaction(id) == Some(reactions[id - 1])
      ensures forall j :: j != id ==> GetReaction(j) == old(GetReaction(j))
    {
      if LiveReaction(reactions, id).None? {
        return Failed(ReactionNotFound);
      }
      if !stored {
        return Failed(UploadFailed);
      }
      var fileName := ImageFileName(id, name);
      LiveAfterWrite(reactions, id, reactions[id - 1].(src := ImageSrc(fileName)));
      reactions := reactions[id - 1 := reactions[id - 1].(src := ImageSrc(fileName))];
      ImageRoundTrip(id, name);
      outcome := Done;
    }

    /** Soft-deletes a reaction (found whether or not it is already deleted)
        and then removes every line of every soft-deleted reaction. */
    method DeleteReaction(id: nat) returns (outcome: Outcome)
      requires Valid()
      modifies this
      ensures Valid()
      ensures syntheses == old(syntheses) && users == old(users)
      ensures outcome == if 1 <= id <= |old(reactions)| then Done else Failed(ReactionNotFound)
      ensures outcome.Failed? ==> reactions == old(reactions) && lines == old(lines)
      ensures outcome.Done? ==> reactions == old(reactions)[id - 1 := old(reactions)[id - 1].(isDelete := true)]
      ensures outcome.Done? ==> GetReaction(id).None?
      ensures forall j :: j != id ==> GetReaction(j) == old(GetReaction(j))
      ensures outcome.Done? ==> lines == Purged(old(lines), reactions, |reactions|)
      ensures outcome.Done? ==> forall l :: l in lines ==> !SoftDeleted(reactions, l.reactionID)
    {
      if !(1 <= id <= |reactions|) {
        return Failed(ReactionNotFound);
      }
      LiveAfterWrite(reactions, id, reactions[id - 1].(isDelete := true));
      reactions := reactions[id - 1 := reactions[id - 1].(isDelete := true)];
      CleanupDeletedReactionsFromSyntheses();
      outcome := Done;
    }

    /** Deletes, reaction by reaction, the lines of every soft-deleted
        reaction. */
    method CleanupDeletedReactionsFromSyntheses()
      requires Valid()
      modifies this
      ensures Valid()
      ensures reactions == old(reactions) && syntheses == old(syntheses) && users == old(users)
      ensures lines == Purged(old(lines), reactions, |reactions|)
      ensures forall l :: l in lines ==> !SoftDeleted(reactions, l.reactionID)
    {
      var rs := reactions;
      FilterAgree(lines, l => !PurgedUpTo(rs, 0, l), l => true);
      FilterAll(lines);
      var i := 0;
      while i < |reactions|
        invariant 0 <= i <= |reactions|
        invariant reactions == old(reactions) && syntheses == old(syntheses) && users == old(users)
        invariant lines == Purged(old(lines), reactions, i)
        invariant Valid()
      {
        PurgeStep(old(lines), reactions, i);
        if reactions[i].isDelete {
          FilterValid(lines, (l: Line) => l.reactionID != i + 1, |syntheses|);
          lines := WithoutReaction(lines, i + 1);
        }
        i := i + 1;
      }
    }

    /* ------------------------------------------------------------ users */

    /** Creates a non-moderator user with a fresh, non-empty login and a
        non-empty password. */
    method RegisterUser(login: string, password: string, fio: string) returns (outcome: Outcome)
      requires Valid()
      modifies this
      ensures Valid()
      ensures reactions == old(reactions) && syntheses == old(syntheses) && lines == old(lines)
      ensures outcome ==
        if login == "" then Failed(LoginEmpty)
        else if password == "" then Failed(PasswordEmpty)
        else if FindLogin(old(users), login, 0).Some? then Failed(LoginTaken)
        else Done
      ensures outcome.Failed? ==> users == old(users)
      ensures outcome.Done? ==> users == old(users) + [User(login, password, fio, false)]
      ensures outcome.Done? ==> AuthUser(login, password) == Ok((|users|, User(login, "", fio, false)))
    {
      if login == "" {
        return Failed(LoginEmpty);
      }
      if password == "" {
        return Failed(PasswordEmpty);
      }
      if FindLogin(users, login, 0).Some? {
        return Failed(LoginTaken);
      }
      AuthenticateAfterRegister(users, login, password, fio);
      users := users + [User(login, password, fio, false)];
      outcome := Done;
    }

    /** Applies a profile update; a non-empty new login must not belong to
        another user. Answers the (re-read) user without its password, or an
        empty user when the id names none. */
    method UpdateUser(userID: nat, updates: map<string, string>) returns (r: Result<User>)
      requires Valid()
      modifies this
      ensures Valid()
      ensures reactions == old(reactions) && syntheses == old(syntheses) && lines == old(lines)
      ensures r.Err? <==> "login" in updates && updates["login"] != "" && LoginHeldByOther(old(users), updates["login"], userID)
      ensures r.Err? ==> r.error == LoginTaken && users == old(users)
      ensures r.Ok? && |updates| > 0 && 1 <= userID <= |old(users)| ==>
        users == old(users)[userID - 1 := ApplyUserUpdates(old(users)[userID - 1], updates)]
      ensures r.Ok? && (|updates| == 0 || !(1 <= userID <= |old(users)|)) ==> users == old(users)
      ensures r.Ok? ==> r.value == if 1 <= userID <= |users| then users[userID - 1].(password := "") else User("", "", "", false)
    {
      if "login" in updates && updates["login"] != "" && LoginHeldByOther(users, updates["login"], userID) {
        return Err(LoginTaken);
      }
      if |updates| > 0 && 1 <= userID <= |users| {
        var u := ApplyUserUpdates(users[userID - 1], updates);
        users := users[userID - 1 := u];
      }
      if 1 <= userID <= |users| {
        r := Ok(users[userID - 1].(password := ""));
      } else {
        r := Ok(User("", "", "", false));
      }
    }
  }

  /** The loop that drops the empty-text entries from a column map. */
  method DropEmptyValues(updates: map<Field, Column>) returns (kept: map<Field, Column>)
    ensures kept == NonEmptyColumns(updates)
    ensures forall f :: f in kept ==> kept[f] != Text("")
  {
    kept := updates;
    var pending := updates.Keys;
    while pending != {}
      invariant pending <= updates.Keys
      invariant kept.Keys <= updates.Keys
      invariant forall f :: f in kept ==> kept[f] == updates[f]
      invariant forall f :: f in pending ==> f in kept
      invariant forall f :: f in updates && f !in pending ==> (f in kept <==> updates[f] != Text(""))
      decreases pending
    {
      var f :| f in pending;
      if kept[f] == Text("") {
        kept := kept - {f};
      }
      pending := pending - {f};
    }
  }
}
