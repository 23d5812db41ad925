/**
 * modules/slack.js: the Slack side of the reconciliation. The Slack user
 * cache maps Slack user names to ids; for each timetable, once a day after
 * its update time, today's duty name is looked up in the calendar and the
 * roster, and the `devIndex`-th mention of the channel topic is rewritten to
 * mention that user.
 *
 * Time is a number of seconds. The Slack API replies, the current instant
 * and today's date are parameters: `info` is the reply of `groups.info` or
 * `channels.info`, `setTopic` the reply `groups.setTopic` or `channels.setTopic`
 * would give, and `at` gives today's instant of a timetable's "HH:mm:ss"
 * update time (None when moment cannot read it).
 */
module Slack {
  import opened Common
  import opened Utils
  import opened Spreadsheets
  import opened MentionScan

  /** The Slack user list is refetched at most once an hour. */
  const UserRefreshWindow: nat := 60 * 60

  /* ============================ Slack users ============================ */

  /** A member of the `users.list` reply. */
  datatype Member = Member(name: string, id: string)

  /** The `users.list` call: thrown, answered with `ok` false, or the members. */
  datatype UsersReply = UsersThrew | UsersNotOk | UsersOk(members: seq<Member>)

  /** The assignments `slackUserCache[user.name] = user.id`, in list order. */
  function MemberIds(members: seq<Member>): (kvs: seq<(string, string)>)
    ensures |kvs| == |members|
    ensures forall k :: 0 <= k < |members| ==> kvs[k] == (members[k].name, members[k].id)
  {
    seq(|members|, k requires 0 <= k < |members| => (members[k].name, members[k].id))
  }

  /**
   * Merging a user list keeps every cached name, adds every listed name,
   * gives each listed name the id of its last listing, and leaves the names
   * not listed as they were.
   */
  lemma MergeMembers(ids: map<string, string>, members: seq<Member>)
    ensures var r := AssignAll(ids, MemberIds(members));
      r.Keys == ids.Keys + (set k | 0 <= k < |members| :: members[k].name) &&
      (forall k :: 0 <= k < |members| && (forall j :: k < j < |members| ==> members[j].name != members[k].name) ==>
         r[members[k].name] == members[k].id) &&
      (forall n :: n !in (set k | 0 <= k < |members| :: members[k].name) ==>
         (n in r <==> n in ids) && (n in ids ==> r[n] == ids[n]))
  {
    var kvs := MemberIds(members);
    var names := set k | 0 <= k < |members| :: members[k].name;
    assert KeysOf(kvs) == names by {
      forall n | n in names ensures n in KeysOf(kvs) {
        var k :| 0 <= k < |members| && members[k].name == n;
        assert kvs[k].0 == n;
      }
    }
    AssignAllKeys(ids, kvs);
    forall k | 0 <= k < |members| && (forall j :: k < j < |members| ==> members[j].name != members[k].name)
      ensures AssignAll(ids, kvs)[members[k].name] == members[k].id
    {
      AssignAllLastWins(ids, kvs, k);
    }
    forall n | n !in names
      ensures (n in AssignAll(ids, kvs) <==> n in ids) && (n in ids ==> AssignAll(ids, kvs)[n] == ids[n])
    {
      AssignAllUntouched(ids, kvs, n);
    }
  }

  /** `slackUserCache`: Slack ids by user name, and the last refresh. */
  class SlackUserCache {
    var ids: map<string, string>
    var lastUpdate: Option<int>

    constructor ()
      ensures ids == map[] && lastUpdate == None
    {
      ids := map[];
      lastUpdate := None;
    }

    /**
     * `updateSlackUsers`: unless refreshed within the last hour, merge the
     * user list into the cache and stamp it; a reply that is not ok changes
     * nothing and returns false, a thrown call escapes.
     */
    method UpdateSlackUsers(now: int, reply: UsersReply) returns (o: Outcome)
      modifies this
      ensures Fresh(old(lastUpdate), now, UserRefreshWindow) ==>
        o == Returned(true) && ids == old(ids) && lastUpdate == old(lastUpdate)
      ensures !Fresh(old(lastUpdate), now, UserRefreshWindow) ==>
        match reply
        case UsersThrew => o == Threw(SlackApiError) && ids == old(ids) && lastUpdate == old(lastUpdate)
        case UsersNotOk => o == Returned(false) && ids == old(ids) && lastUpdate == old(lastUpdate)
        case UsersOk(members) =>
          o == Returned(true) && ids == AssignAll(old(ids), MemberIds(members)) && lastUpdate == Some(now)
    {
      if lastUpdate.Some? && lastUpdate.value > now - UserRefreshWindow {
        return Returned(true);
      }
      if reply.UsersThrew? {
        return Threw(SlackApiError);
      }
      if reply.UsersNotOk? {
        return Returned(false);
      }
      var members := reply.members;
      var i := 0;
      while i < |members|
        invariant 0 <= i <= |members| && lastUpdate == old(lastUpdate)
        invariant ids == AssignAll(old(ids), MemberIds(members)[..i])
      {
        assert MemberIds(members)[..i + 1][..i] == MemberIds(members)[..i];
        ids := ids[members[i].name := members[i].id];
        i := i + 1;
      }
      assert MemberIds(members)[..i] == MemberIds(members);
      lastUpdate := Some(now);
      return Returned(true);
    }
  }

  /* ============================ topic update ============================ */

  /** Where a timetable's topic lives: its private group, or else its channel. */
  datatype Conversation = Group(group: string) | Channel(channel: Option<string>)

  /** `if (group)`: a non-empty group wins over the channel. */
  function Destination(t: TimetableConfig): (c: Conversation)
    ensures c.Group? <==> t.group.Some? && t.group.value != ""
    ensures c.Group? ==> c.group == t.group.value
    ensures c.Channel? ==> c.channel == t.channel
  {
    if t.group.Some? && t.group.value != "" then Group(t.group.value) else Channel(t.channel)
  }

  /** `timetable.devIndex || 0`: which mention of the topic names the duty. */
  function DevIndex(t: TimetableConfig): int
  {
    if t.devIndex.Some? then t.devIndex.value else 0
  }

  /** The `info` call: thrown, answered with `ok` false, or the current topic. */
  datatype InfoReply = InfoThrew | InfoNotOk | InfoOk(topic: string)

  /** The `setTopic` call: thrown, or answered; `ok` is `response.ok === true`. */
  datatype SetTopicReply = SetThrew | SetReply(ok: bool)

  /** What the topic of a conversation is planned to become. */
  datatype TopicPlan =
    | NoMentions        // the topic mentions nobody
    | NoMentionAtIndex  // there is no mention at `devIndex`
    | UnknownUser       // the duty's Slack name has no (truthy) id in the cache
    | AlreadySet        // rewriting the mention leaves the topic as it is
    | NewTopic(topic: string)

  /**
   * The checks of `updateSlackUserName` on a topic, in their order, and the
   * topic `topic.replace(foundUsers[devIndex], '<@' + devId + '>')` gives.
   */
  function PlanTopic(topic: string, devIndex: int, devName: string, slackIds: map<string, string>): (plan: TopicPlan)
    ensures plan == NoMentions <==> Mentions(topic) == []
    ensures plan == NoMentionAtIndex <==> Mentions(topic) != [] && !(0 <= devIndex < |Mentions(topic)|)
    ensures plan == UnknownUser <==>
      0 <= devIndex < |Mentions(topic)| && (devName !in slackIds || slackIds[devName] == "")
    ensures plan.NewTopic? ==> plan.topic != topic
  {
    var found := Mentions(topic);
    if found == [] then NoMentions
    else if !(0 <= devIndex < |found|) then NoMentionAtIndex
    else if devName !in slackIds || slackIds[devName] == "" then UnknownUser
    else
      var newTopic := ReplaceFirst(topic, found[devIndex], MentionOf(slackIds[devName]));
      if newTopic == topic then AlreadySet else NewTopic(newTopic)
  }

  /** A Slack id that `<@[A-Z0-9]+>` can match inside a mention. */
  predicate WellFormedId(id: string)
  {
    id != [] && forall k :: 0 <= k < |id| ==> IsIdChar(id[k])
  }

  /**
   * The topic is already set exactly when the mention at `devIndex` is the
   * mention of the duty's id.
   */
  lemma AlreadySetIff(topic: string, devIndex: int, devName: string, slackIds: map<string, string>)
    requires 0 <= devIndex < |Mentions(topic)|
    requires devName in slackIds && slackIds[devName] != ""
    ensures PlanTopic(topic, devIndex, devName, slackIds) == AlreadySet <==>
      Mentions(topic)[devIndex] == MentionOf(slackIds[devName])
  {
    MentionIsFound(topic, devIndex);
    ReplaceFirstUnchangedIff(topic, Mentions(topic)[devIndex], MentionOf(slackIds[devName]));
  }

  /**
   * A new topic has the mentions of the old one with one of them replaced
   * by the duty's mention: the first mention equal to the one at
   * `devIndex`, which is the one at `devIndex` unless an equal mention comes
   * earlier.
   */
  lemma NewTopicMentions(topic: string, devIndex: int, devName: string, slackIds: map<string, string>)
    requires PlanTopic(topic, devIndex, devName, slackIds).NewTopic?
    requires devName in slackIds && WellFormedId(slackIds[devName])
    ensures var found := Mentions(topic);
      var j := FirstIndex(found, found[devIndex]);
      var rep := MentionOf(slackIds[devName]);
      j <= devIndex && found[devIndex] != rep &&
      Mentions(PlanTopic(topic, devIndex, devName, slackIds).topic) == found[j := rep] &&
      ((forall k :: 0 <= k < devIndex ==> found[k] != found[devIndex]) ==> j == devIndex)
  {
    var rep := MentionOf(slackIds[devName]);
    MentionOfIsMention(slackIds[devName]);
    ReplaceMention(topic, devIndex, rep);
    AlreadySetIff(topic, devIndex, devName, slackIds);
  }

  /**
   * When no earlier mention equals the one at `devIndex`, rewriting is
   * idempotent: planning again on the new topic finds it already set.
   */
  lemma RewriteIsIdempotent(topic: string, devIndex: int, devName: string, slackIds: map<string, string>)
    requires PlanTopic(topic, devIndex, devName, slackIds).NewTopic?
    requires devName in slackIds && WellFormedId(slackIds[devName])
    requires forall k :: 0 <= k < devIndex ==> Mentions(topic)[k] != Mentions(topic)[devIndex]
    ensures PlanTopic(PlanTopic(topic, devIndex, devName, slackIds).topic, devIndex, devName, slackIds) == AlreadySet
  {
    var newTopic := PlanTopic(topic, devIndex, devName, slackIds).topic;
    NewTopicMentions(topic, devIndex, devName, slackIds);
    AlreadySetIff(newTopic, devIndex, devName, slackIds);
  }

  /**
   * With a repeated mention the rewrite lands on the first copy: in
   * "<@A> <@A>" with `devIndex` 1 and the duty's id "B", the new topic
   * mentions "<@B>" then "<@A>", so planning again rewrites it once more.
   */
  lemma RepeatedMentionIsRewrittenTwice()
    ensures var ids := map["duty" := "B"];
      var first := PlanTopic("<@A> <@A>", 1, "duty", ids);
      first.NewTopic? && Mentions(first.topic) == ["<@B>", "<@A>"] &&
      var second := PlanTopic(first.topic, 1, "duty", ids);
      second.NewTopic? && Mentions(second.topic) == ["<@B>", "<@B>"]
  {
    var ids := map["duty" := "B"];
    assert MentionOf("B") == "<@B>";
    assert WellFormedId("B");
    DuplicateTokenRewritesFirstCopy();
    var s1 := ReplaceFirst("<@A> <@A>", "<@A>", "<@B>");
    assert PlanTopic("<@A> <@A>", 1, "duty", ids) == NewTopic(s1);
    var found := Mentions(s1);
    assert found == ["<@B>", "<@A>"];
    AlreadySetIff(s1, 1, "duty", ids);
    NewTopicMentions(s1, 1, "duty", ids);
  }

  /** A `setTopic` request: the conversation and the new topic. */
  datatype TopicWrite = TopicWrite(to: Conversation, topic: string)

  /** What `updateSlackUserName` ends with, and the topic it writes, if any. */
  datatype NameUpdate = NameUpdate(outcome: Outcome, write: Option<TopicWrite>)

  /**
   * `updateSlackUserName`: read the topic, plan the rewrite, and write the
   * new topic only when it differs; the result is then `response.ok`.
   */
  function UpdateSlackUserName(t: TimetableConfig, devName: string, slackIds: map<string, string>,
                               info: InfoReply, setTopic: SetTopicReply): (u: NameUpdate)
    ensures u.write.Some? <==>
      info.InfoOk? && PlanTopic(info.topic, DevIndex(t), devName, slackIds).NewTopic?
    ensures u.write.Some? ==>
      u.write.value == TopicWrite(Destination(t), PlanTopic(info.topic, DevIndex(t), devName, slackIds).topic)
    ensures u.outcome == Returned(true) <==>
      info.InfoOk? &&
      (PlanTopic(info.topic, DevIndex(t), devName, slackIds) == AlreadySet ||
       (u.write.Some? && setTopic == SetReply(true)))
    ensures u.outcome.Threw? <==> info.InfoThrew? || (u.write.Some? && setTopic.SetThrew?)
  {
    match info
    case InfoThrew => NameUpdate(Threw(SlackApiError), None)
    case InfoNotOk => NameUpdate(Returned(false), None)
    case InfoOk(topic) =>
      match PlanTopic(topic, DevIndex(t), devName, slackIds)
      case AlreadySet => NameUpdate(Returned(true), None)
      case NewTopic(newTopic) =>
        var o := if setTopic.SetThrew? then Threw(SlackApiError) else Returned(setTopic.ok);
        NameUpdate(o, Some(TopicWrite(Destination(t), newTopic)))
      case _ => NameUpdate(Returned(false), None)
  }

  /* ========================== one timetable run ========================== */

  /** Today's date as `moment().format('Y')`, `'M'` and `'D'` give it. */
  datatype Date = Date(year: string, month: string, day: string)

  /**
   * Whether a run may act: a timetable never updated always may; otherwise
   * not before today's update time, and not when it was last updated after
   * it. An unreadable update time makes both comparisons false.
   */
  predicate Due(now: int, updateAt: Option<int>, last: Option<int>)
  {
    !(last.Some? && updateAt.Some? && (now < updateAt.value || last.value > updateAt.value))
  }

  /** `calendar[year][month][day]` when it is truthy. */
  function DutyOn(cal: YearMap, d: Date): (r: Option<string>)
    ensures r.Some? <==>
      d.year in cal && d.month in cal[d.year] && d.day in cal[d.year][d.month] && cal[d.year][d.month][d.day] != ""
    ensures r.Some? ==> r.value == cal[d.year][d.month][d.day]
  {
    if d.year in cal && d.month in cal[d.year] && d.day in cal[d.year][d.month] && cal[d.year][d.month][d.day] != ""
    then Some(cal[d.year][d.month][d.day])
    else None
  }

  /** `users[name]` when it is truthy. */
  function SlackNameOf(roster: Roster, name: string): Option<string>
  {
    if name in roster && roster[name] != "" then Some(roster[name]) else None
  }

  /** What a run of `updateSlackTimetable` does. */
  datatype Run = Run(result: bool, stamps: bool, write: Option<TopicWrite>)

  /** `updateSlackTimetable(timetable)`, given the timetable's `lastUpdate`. */
  function SlackTimetableRun(t: TimetableConfig, last: Option<int>, now: int, updateAt: Option<int>, today: Date,
                             calendars: map<string, YearMap>, rosters: map<string, Roster>,
                             slackIds: map<string, string>, info: InfoReply, setTopic: SetTopicReply): Run
  {
    if TimeTableHash(t) !in calendars || UserTimeTableHash(t) !in rosters then Run(false, false, None)
    else if !Due(now, updateAt, last) then Run(false, false, None)
    else DutyRun(t, calendars[TimeTableHash(t)], rosters[UserTimeTableHash(t)], today, slackIds, info, setTopic)
  }

  /** The rest of a due run: look up today's duty and put it in the topic. */
  function DutyRun(t: TimetableConfig, calendar: YearMap, users: Roster, today: Date,
                   slackIds: map<string, string>, info: InfoReply, setTopic: SetTopicReply): Run
  {
    match DutyOn(calendar, today)
    case None => Run(true, true, None)
    case Some(duty) =>
      match SlackNameOf(users, duty)
      case None => Run(true, true, None)
      case Some(devName) => NameRun(UpdateSlackUserName(t, devName, slackIds, info, setTopic))
  }

  /** The `try`: an error of `updateSlackUserName` is swallowed as true, and only a true result stamps. */
  function NameRun(u: NameUpdate): Run
  {
    match u.outcome
    case Threw(_) => Run(true, false, u.write)
    case Returned(b) => Run(b, b, u.write)
  }

  /**
   * The stamping rules: a run stamps only when it returns true; it returns
   * false without stamping or writing when a cache entry is missing or the
   * timetable is not due; a due run without a duty for today, or without
   * the duty's Slack name, stamps; otherwise the topic update decides: its
   * result is returned and stamps when true, and an error of the Slack
   * calls is swallowed as true without a stamp.
   */
  lemma RunStamping(t: TimetableConfig, last: Option<int>, now: int, updateAt: Option<int>, today: Date,
                    calendars: map<string, YearMap>, rosters: map<string, Roster>,
                    slackIds: map<string, string>, info: InfoReply, setTopic: SetTopicReply)
    ensures var r := SlackTimetableRun(t, last, now, updateAt, today, calendars, rosters, slackIds, info, setTopic);
      (r.stamps ==> r.result) &&
      (TimeTableHash(t) !in calendars || UserTimeTableHash(t) !in rosters || !Due(now, updateAt, last) ==>
         r == Run(false, false, None)) &&
      (TimeTableHash(t) in calendars && UserTimeTableHash(t) in rosters && Due(now, updateAt, last) ==>
         var duty := DutyOn(calendars[TimeTableHash(t)], today);
         (duty.None? || SlackNameOf(rosters[UserTimeTableHash(t)], duty.value).None? ==> r == Run(true, true, None)) &&
         (duty.Some? && SlackNameOf(rosters[UserTimeTableHash(t)], duty.value).Some? ==>
            var u := UpdateSlackUserName(t, SlackNameOf(rosters[UserTimeTableHash(t)], duty.value).value,
                                         slackIds, info, setTopic);
            (info.InfoThrew? ==> r == Run(true, false, None)) &&
            (u.outcome.Returned? ==> r == Run(u.outcome.value, u.outcome.value, u.write)) &&
            (u.outcome.Threw? ==> r == Run(true, false, u.write))))
  {
  }

  /**
   * With a readable update time, a timetable is due exactly when it was
   * never updated, or today's update time has come and it was last updated
   * no later than that. So a timetable stamped after the update time is not
   * due again that day, and one stamped earlier is due again once the update
   * time comes.
   */
  lemma DueOncePerDay(now: int, updateAt: int, last: Option<int>, later: int)
    ensures Due(now, Some(updateAt), last) <==>
      last.None? || (updateAt <= now && last.value <= updateAt)
    ensures now > updateAt ==> !Due(later, Some(updateAt), Some(now))
    ensures now < updateAt <= later ==> Due(later, Some(updateAt), Some(now))
  {
  }

  /** A configured timetable, whose `lastUpdate` the Slack run stamps. */
  class Timetable {
    const config: TimetableConfig
    var lastUpdate: Option<int>

    constructor (config: TimetableConfig)
      ensures this.config == config && lastUpdate == None
    {
      this.config := config;
      lastUpdate := None;
    }

    /**
     * `updateSlackTimetable(timetable)`: the run with this timetable's
     * `lastUpdate`, which becomes `now` exactly when the run stamps.
     */
    method UpdateSlackTimetable(now: int, at: string -> Option<int>, today: Date,
                                calendars: map<string, YearMap>, rosters: map<string, Roster>,
                                slackIds: map<string, string>, info: InfoReply, setTopic: SetTopicReply)
      returns (res: bool, write: Option<TopicWrite>)
      modifies this`lastUpdate
      ensures var r := SlackTimetableRun(config, old(lastUpdate), now, at(config.updateTime), today,
                                         calendars, rosters, slackIds, info, setTopic);
        res == r.result && write == r.write && lastUpdate == (if r.stamps then Some(now) else old(lastUpdate))
    {
      res, write := false, None;
      if TimeTableHash(config) in calendars && UserTimeTableHash(config) in rosters {
        var calendar := calendars[TimeTableHash(config)];
        var users := rosters[UserTimeTableHash(config)];
        var updateAt := at(config.updateTime);
        var tooEarly := updateAt.Some? && now < updateAt.value;
        var alreadyUpdated := lastUpdate.Some? && updateAt.Some? && lastUpdate.value > updateAt.value;
        if !(lastUpdate.Some? && (tooEarly || alreadyUpdated)) {
          ghost var due := DutyRun(config, calendar, users, today, slackIds, info, setTopic);
          var currentDevName := DutyOn(calendar, today);
          if currentDevName.None? {
            lastUpdate := Some(now);
            res := true;
          } else {
            var currentDevSlackName := SlackNameOf(users, currentDevName.value);
            if currentDevSlackName.None? {
              lastUpdate := Some(now);
              res := true;
            } else {
              var u := UpdateSlackUserName(config, currentDevSlackName.value, slackIds, info, setTopic);
              assert due == NameRun(u);
              write := u.write;
              res := u.outcome.Threw? || u.outcome.value;
              if u.outcome.Returned? && res {
                lastUpdate := Some(now);
              }
            }
          }
        }
      }
    }
  }

  /** The Slack replies one timetable's run would get. */
  datatype Replies = Replies(info: InfoReply, setTopic: SetTopicReply)

  /**
   * `updateSlack`: run every configured timetable, one after the other, and
   * return their results in configuration order.
   */
  method UpdateSlack(timetables: seq<Timetable>, now: int, at: string -> Option<int>, today: Date,
                     calendars: map<string, YearMap>, rosters: map<string, Roster>,
                     slackIds: map<string, string>, replies: seq<Replies>)
    returns (results: seq<bool>, writes: seq<Option<TopicWrite>>)
    requires |replies| == |timetables|
    requires forall i, j :: 0 <= i < j < |timetables| ==> timetables[i] != timetables[j]
    modifies set t | t in timetables
    ensures |results| == |timetables| && |writes| == |timetables|
    ensures forall k :: 0 <= k < |timetables| ==>
      var t := timetables[k];
      var r := SlackTimetableRun(t.config, old(t.lastUpdate), now, at(t.config.updateTime), today,
                                 calendars, rosters, slackIds, replies[k].info, replies[k].setTopic);
      results[k] == r.result && writes[k] == r.write &&
      t.lastUpdate == (if r.stamps then Some(now) else old(t.lastUpdate))
  {
    results, writes := [], [];
    var i := 0;
    while i < |timetables|
      invariant 0 <= i <= |timetables| && |results| == i && |writes| == i
      invariant forall k :: 0 <= k < i ==>
        var t := timetables[k];
        var r := SlackTimetableRun(t.config, old(t.lastUpdate), now, at(t.config.updateTime), today,
                                   calendars, rosters, slackIds, replies[k].info, replies[k].setTopic);
        results[k] == r.result && writes[k] == r.write &&
        t.lastUpdate == (if r.stamps then Some(now) else old(t.lastUpdate))
      invariant forall k :: i <= k < |timetables| ==> timetables[k].lastUpdate == old(timetables[k].lastUpdate)
    {
      var res, write := timetables[i].UpdateSlackTimetable(now, at, today, calendars, rosters, slackIds,
                                                          replies[i].info, replies[i].setTopic);
      results := results + [res];
      writes := writes + [write];
      i := i + 1;
    }
  }

  /**
   * The timetable of the project's test configuration: an empty prefix, so
   * its calendar and roster keys are both the spreadsheet id; its topic is
   * in the group "GCC9TQ0JW"; the duty is the second mention.
   */
  lemma TestTimetable()
    ensures var t := TimetableConfig("test 1 channel update", "1g1rbACDbFD-w8wwHeylSdiWrT5Vh47_JWT90Oh5-6CY",
                                     "", "17:54:30", Some(1), Some("GCC9TQ0JW"), None);
      TimeTableHash(t) == UserTimeTableHash(t) == t.spreadsheetId &&
      Destination(t) == Group("GCC9TQ0JW") && DevIndex(t) == 1
  {
  }
}
