/** The birthday store and what the bot does with it: the three slash
    commands and the hourly scheduler pass. */
module Birthdays {
  import opened Text
  import opened Dates
  import opened Facts

  /** One user's entry: the normalised date and the display name at the
      time it was set. */
  datatype Record = Record(date: string, username: string)

  /** Replies of the three commands, in place of the ephemeral messages.
      `SetSaveRaised` and `RemoveSaveRaised` stand for a `save_birthdays`
      that raised: the handler ends before replying. */
  datatype SetReply = InvalidDate | Saved(date: string) | SetSaveRaised
  datatype LookupReply = BirthdayIs(date: string) | NotSet
  datatype RemoveReply = Removed | NothingToRemove | RemoveSaveRaised

  /** What one notification came to: the message went out with its fact,
      or resolving the user or sending the message raised and was logged. */
  datatype Delivery = Delivered(fact: string) | Failed
  datatype Attempt = Attempt(userId: string, username: string, delivery: Delivery)

  function Lookup(m: map<string, Record>, userId: string): Option<Record>
  {
    if userId in m then Some(m[userId]) else None
  }

  /** Every stored date passed validation and formatting. */
  ghost predicate WellFormed(m: map<string, Record>)
  {
    forall u :: u in m ==> IsStoredDate(m[u].date)
  }

  /** The users whose stored date is exactly today's string. */
  function Due(m: map<string, Record>, today: string): set<string>
  {
    set u | u in m && m[u].date == today
  }

  /** `send_birthday_message` for one user: the fact for their stored date,
      delivered when the user can be resolved and messaged. */
  function Notify(m: map<string, Record>, userId: string, fetch: string -> HttpOutcome,
                  reachable: string -> bool): (a: Attempt)
    requires userId in m
  {
    Attempt(userId, m[userId].username,
            if reachable(userId) then Delivered(HistoricalFact(m[userId].date, fetch)) else Failed)
  }

  function Recipients(attempts: seq<Attempt>): set<string>
  {
    set i | 0 <= i < |attempts| :: attempts[i].userId
  }

  lemma RecipientsAppend(attempts: seq<Attempt>, a: Attempt)
    ensures Recipients(attempts + [a]) == Recipients(attempts) + {a.userId}
  {
    var extended := attempts + [a];
    assert extended[|attempts|] == a;
    forall u | u in Recipients(extended) ensures u in Recipients(attempts) + {a.userId} {
      var i :| 0 <= i < |extended| && extended[i].userId == u;
      if i < |attempts| { assert attempts[i] == extended[i]; }
    }
    forall u | u in Recipients(attempts) ensures u in Recipients(extended) {
      var i :| 0 <= i < |attempts| && attempts[i].userId == u;
      assert extended[i] == attempts[i];
    }
  }

  class BirthdayStore {
    /** The in-memory map from user id to record. */
    var birthdays: map<string, Record>
    /** The map as `save_birthdays` last wrote it to the file. */
    var saved: map<string, Record>

    /** The store as loaded at start-up from the file's contents. */
    constructor (loaded: map<string, Record>)
      ensures birthdays == loaded && saved == loaded
    {
      birthdays := loaded;
      saved := loaded;
    }

    /** `/setbirthday date`: refuse an invalid date with no change at all;
        otherwise overwrite this user's record with the formatted date and
        the current display name, save, and echo the formatted date.
        `saveOk` says whether writing the file succeeds; when it raises, the
        in-memory record is already updated, the file keeps its old
        contents and no reply is sent. */
    method SetBirthday(userId: string, displayName: string, date: string, saveOk: bool)
      returns (reply: SetReply)
      modifies this
      ensures !IsValidDate(date) ==>
        reply == InvalidDate && birthdays == old(birthdays) && saved == old(saved)
      ensures IsValidDate(date) ==>
        birthdays == old(birthdays)[userId := Record(FormatDate(date), displayName)]
      ensures IsValidDate(date) && saveOk ==> reply == Saved(FormatDate(date)) && saved == birthdays
      ensures IsValidDate(date) && !saveOk ==> reply == SetSaveRaised && saved == old(saved)
      ensures forall u :: u != userId ==> Lookup(birthdays, u) == old(Lookup(birthdays, u))
      ensures old(WellFormed(birthdays)) ==> WellFormed(birthdays)
    {
      if !IsValidDate(date) {
        reply := InvalidDate;
        return;
      }
      var formatted := FormatDate(date);
      FormatValidDate(date);
      birthdays := birthdays[userId := Record(formatted, displayName)];
      if !saveOk {
        reply := SetSaveRaised;
        return;
      }
      saved := birthdays;
      reply := Saved(formatted);
    }

    /** `/mybirthday`: the stored date, or "not set"; nothing changes. */
    method MyBirthday(userId: string) returns (reply: LookupReply)
      ensures reply.BirthdayIs? <==> userId in birthdays
      ensures reply.BirthdayIs? ==> reply.date == birthdays[userId].date
    {
      if userId in birthdays {
        reply := BirthdayIs(birthdays[userId].date);
      } else {
        reply := NotSet;
      }
    }

    /** `/removebirthday`: delete this user's record and save, or report
        that there was none and change nothing. A save that raises
        (`saveOk` false) leaves the record deleted in memory, the file as
        it was, and no reply. */
    method RemoveBirthday(userId: string, saveOk: bool) returns (reply: RemoveReply)
      modifies this
      ensures reply == NothingToRemove <==> userId !in old(birthdays)
      ensures reply == Removed <==> userId in old(birthdays) && saveOk
      ensures userId !in birthdays
      ensures forall u :: u != userId ==> Lookup(birthdays, u) == old(Lookup(birthdays, u))
      ensures reply == Removed ==> saved == birthdays
      ensures reply != Removed ==> saved == old(saved)
      ensures reply == NothingToRemove ==> birthdays == old(birthdays)
      ensures old(WellFormed(birthdays)) ==> WellFormed(birthdays)
    {
      if userId in birthdays {
        birthdays := birthdays - {userId};
        if saveOk {
          saved := birthdays;
          reply := Removed;
        } else {
          reply := RemoveSaveRaised;
        }
      } else {
        reply := NothingToRemove;
      }
    }

    /** One pass of `check_birthdays_daily` on the local date `month/day`:
        every user whose stored date equals today's string is notified once,
        nobody else is, and a failed notification does not end the pass. */
    method CheckBirthdays(month: nat, day: nat, fetch: string -> HttpOutcome,
                          reachable: string -> bool) returns (attempts: seq<Attempt>)
      ensures Recipients(attempts) == Due(birthdays, TodayString(month, day))
      ensures forall i, j :: 0 <= i < j < |attempts| ==> attempts[i].userId != attempts[j].userId
      ensures forall i :: 0 <= i < |attempts| ==>
        attempts[i].userId in birthdays && attempts[i] == Notify(birthdays, attempts[i].userId, fetch, reachable)
    {
      var today := TodayString(month, day);
      var pending := birthdays.Keys;
      attempts := [];
      while pending != {}
        invariant pending <= birthdays.Keys
        invariant Recipients(attempts) == Due(birthdays, today) - pending
        invariant forall i, j :: 0 <= i < j < |attempts| ==> attempts[i].userId != attempts[j].userId
        invariant forall i :: 0 <= i < |attempts| ==>
          attempts[i].userId in birthdays && attempts[i] == Notify(birthdays, attempts[i].userId, fetch, reachable)
        decreases pending
      {
        var userId :| userId in pending;
        if birthdays[userId].date == today {
          assert userId !in Recipients(attempts);
          RecipientsAppend(attempts, Notify(birthdays, userId, fetch, reachable));
          attempts := attempts + [Notify(birthdays, userId, fetch, reachable)];
        }
        pending := pending - {userId};
      }
    }
  }

  /** On any day the clock can show, whoever is due has a valid, canonical
      date naming today, in any store, including one loaded unvalidated: a
      record written with a leading zero (`03/15`), with `-` or with a
      trailing newline is never due. */
  lemma DueRecordsAreCanonical(m: map<string, Record>, month: nat, day: nat)
    requires 1 <= month <= 12 && 1 <= day <= 31
    ensures forall u :: u in Due(m, TodayString(month, day)) ==>
      && IsValidDate(m[u].date) && IsCanonical(m[u].date)
      && MonthOf(m[u].date) == month && DayOf(m[u].date) == day
  {
    TodayStringIsStoredDate(month, day);
    forall u | u in Due(m, TodayString(month, day))
      ensures IsValidDate(m[u].date) && IsCanonical(m[u].date)
      ensures MonthOf(m[u].date) == month && DayOf(m[u].date) == day
    {
      TodayMatchIsCanonical(m[u].date, month, day);
    }
  }

  lemma LeadingZeroNeverDue(m: map<string, Record>, userId: string, month: nat, day: nat)
    requires userId in m && IsValidDate(m[userId].date)
    requires MonthText(m[userId].date)[0] == '0' || DayText(m[userId].date)[0] == '0'
    ensures userId !in Due(m, TodayString(month, day))
  {
    LeadingZeroNeverToday(m[userId].date, month, day);
  }

  /** A record with a canonical date is due exactly on its own month and day. */
  lemma CanonicalRecordDueOnItsDay(m: map<string, Record>, userId: string, month: nat, day: nat)
    requires userId in m && IsValidDate(m[userId].date) && IsCanonical(m[userId].date)
    ensures userId in Due(m, TodayString(month, day)) <==>
      month == MonthOf(m[userId].date) && day == DayOf(m[userId].date)
  {
    var s := m[userId].date;
    CanonicalIsTodayString(s);
    if s == TodayString(month, day) {
      TodayMatchIsCanonical(s, month, day);
    }
  }

  /** What a delivered message carries in a pass over any store: the fact
      requested for today's month and day, or one of its two fallbacks; an
      unreachable user gets nothing and the pass goes on. */
  lemma DueNotification(m: map<string, Record>, userId: string, month: nat, day: nat,
                        fetch: string -> HttpOutcome, reachable: string -> bool)
    requires 1 <= month <= 12 && 1 <= day <= 31
    requires userId in Due(m, TodayString(month, day))
    ensures var a := Notify(m, userId, fetch, reachable);
      var outcome := fetch(FactUrl(NatToString(month), NatToString(day)));
      && a.username == m[userId].username
      && (!reachable(userId) ==> a.delivery == Failed)
      && (reachable(userId) && outcome.Response? && outcome.status == 200 ==>
            a.delivery == Delivered(outcome.body))
      && (reachable(userId) && outcome.Response? && outcome.status != 200 ==>
            a.delivery == Delivered(StatusFallback(MonthNames[month], NatToString(day))))
      && (reachable(userId) && outcome.RequestError? ==> a.delivery == Delivered(ErrorFallback))
  {
    TodayStringFact(month, day, fetch);
  }

  /** A scheduler pass in miniature: with today 6/1, of A on "6/1" and B
      on "6/2" only A is due. */
  lemma SchedulerExample()
    ensures Due(map["A" := Record("6/1", "a"), "B" := Record("6/2", "b")], TodayString(6, 1)) == {"A"}
  {
    assert TodayString(6, 1) == "6/1";
  }

  /** Typical command sequences, as consequences of the contracts
      above. `12/25` is stored as is and is still there after a reload of
      the saved map. */
  method SetAndReloadScenario()
  {
    var store := new BirthdayStore(map[]);
    assert IsValidDate("12/25");
    var r := store.SetBirthday("1", "Ann", "12/25", true);
    assert r == Saved("12/25");
    var restarted := new BirthdayStore(store.saved);
    var g := restarted.MyBirthday("1");
    assert g == BirthdayIs("12/25");
  }

  /** `3-15` is stored and read back as `3/15`. */
  method DashScenario(store: BirthdayStore)
    modifies store
  {
    assert IsValidDate("3-15");
    FormatValidDate("3-15");
    assert FormatDate("3-15") == "3/15";
    var r := store.SetBirthday("2", "Bob", "3-15", true);
    var g := store.MyBirthday("2");
    assert g == BirthdayIs("3/15");
  }

  /** `13/01` is refused and changes nothing; `2/30` is accepted. */
  method ValidationScenarios(store: BirthdayStore)
    modifies store
  {
    ghost var before := store.birthdays;
    assert !IsValidDate("13/01");
    var r := store.SetBirthday("2", "Bob", "13/01", true);
    assert r == InvalidDate && store.birthdays == before;
    assert IsValidDate("2/30");
    r := store.SetBirthday("3", "Cy", "2/30", true);
    assert r == Saved("2/30");
  }

  /** Removing twice: the second call reports that nothing is set, even
      when the first call's save raised. */
  method RemoveTwiceScenario(store: BirthdayStore, userId: string, firstSaveOk: bool)
    modifies store
  {
    var first := store.RemoveBirthday(userId, firstSaveOk);
    var second := store.RemoveBirthday(userId, true);
    assert second == NothingToRemove;
    var g := store.MyBirthday(userId);
    assert g == NotSet;
  }
}
