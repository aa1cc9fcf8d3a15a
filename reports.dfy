/** The report handlers: the summary that counts reports by type, by admin action and by
    user action and ranks the five most active admins; the split of the report-type
    filter; and the validation in front of writing an audit log. */
module Reports {
  import opened JsValues
  import opened Strings
  import opened Sorting

  /** A report as the report service hands it over. `action` is `data.action`; the
      service substitutes `{}` for missing data, so only the action can be absent. */
  datatype Report = Report(reportType: string, adminId: Option<int>, userId: Option<int>,
                           adminName: Option<string>, action: Option<string>)

  // ---------------------------------------------------------------------------
  // counters

  /** One property of a `Record<string, number>` counter. */
  datatype Entry = Entry(key: string, count: nat)

  /** A counter object. Its properties are listed in insertion order, the order
      `Object.entries` gives for keys that are not array indices. */
  type Counter = seq<Entry>

  /** `c[k] || 0`. */
  function CountOf(c: Counter, k: string): nat {
    if c == [] then 0 else if c[0].key == k then c[0].count else CountOf(c[1..], k)
  }

  /** The keys of a counter, in order. */
  function Keys(c: Counter): seq<string> {
    if c == [] then [] else [c[0].key] + Keys(c[1..])
  }

  /** The sum of a counter's values. */
  function Total(c: Counter): int {
    if c == [] then 0 else c[0].count + Total(c[1..])
  }

  /** No key is listed twice and every value is positive. */
  predicate WellFormed(c: Counter) {
    c == [] || (c[0].count >= 1 && c[0].key !in Keys(c[1..]) && WellFormed(c[1..]))
  }

  /** `c[k] = (c[k] || 0) + 1`: an existing property keeps its place, a new one goes last. */
  function Bump(c: Counter, k: string): (r: Counter)
    ensures CountOf(r, k) == CountOf(c, k) + 1
    ensures Total(r) == Total(c) + 1
    ensures Keys(r) == if k in Keys(c) then Keys(c) else Keys(c) + [k]
  {
    if c == [] then [Entry(k, 1)]
    else if c[0].key == k then [c[0].(count := c[0].count + 1)] + c[1..]
    else [c[0]] + Bump(c[1..], k)
  }

  /** Counting a key leaves the counts of the other keys alone. */
  lemma {:induction false} BumpOther(c: Counter, k: string, other: string)
    requires other != k
    ensures CountOf(Bump(c, k), other) == CountOf(c, other)
  {
    if c != [] && c[0].key != k {
      BumpOther(c[1..], k, other);
      assert Bump(c, k)[1..] == Bump(c[1..], k);
    }
  }

  /** Counting one more key keeps the counter well formed. */
  lemma {:induction false} BumpWellFormed(c: Counter, k: string)
    requires WellFormed(c)
    ensures WellFormed(Bump(c, k))
  {
    if c != [] && c[0].key != k {
      BumpWellFormed(c[1..], k);
      assert Bump(c, k)[1..] == Bump(c[1..], k);
    }
  }

  /** In a well-formed counter, the entries' keys are pairwise distinct and each value
      is at least 1. */
  lemma {:induction false} WellFormedEntries(c: Counter)
    requires WellFormed(c)
    ensures forall i, j :: 0 <= i < j < |c| ==> c[i].key != c[j].key
    ensures forall i :: 0 <= i < |c| ==> c[i].count >= 1
  {
    if c != [] {
      WellFormedEntries(c[1..]);
      forall j | 0 < j < |c|
        ensures c[0].key != c[j].key
      {
        KeysListed(c[1..], j - 1);
      }
    }
  }

  /** The key of the `i`th entry is among the counter's keys. */
  lemma {:induction false} KeysListed(c: Counter, i: nat)
    requires i < |c|
    ensures c[i].key in Keys(c)
  {
    if i > 0 {
      KeysListed(c[1..], i - 1);
    }
  }

  /** In a well-formed counter an entry's value is what looking up its key gives. */
  lemma {:induction false} EntryCount(c: Counter, e: Entry)
    requires WellFormed(c) && e in c
    ensures CountOf(c, e.key) == e.count
  {
    if c[0] != e {
      assert e in c[1..];
      var j :| 0 <= j < |c[1..]| && c[1..][j] == e;
      KeysListed(c[1..], j);
      EntryCount(c[1..], e);
    }
  }

  /** A counter that has seen the keys `ks`, in order, starting from `{}`. */
  function Tally(ks: seq<string>): Counter {
    if ks == [] then [] else Bump(Tally(ks[..|ks| - 1]), ks[|ks| - 1])
  }

  /** Each count is the number of times its key was seen. */
  lemma {:induction false} TallyCounts(ks: seq<string>, k: string)
    ensures CountOf(Tally(ks), k) == multiset(ks)[k]
    decreases |ks|
  {
    if ks != [] {
      var init := ks[..|ks| - 1];
      var last := ks[|ks| - 1];
      var step := if last == k then 1 else 0;
      TallyCounts(init, k);
      assert CountOf(Tally(ks), k) == CountOf(Tally(init), k) + step by {
        if last != k {
          BumpOther(Tally(init), last, k);
        }
      }
      MultisetSnoc(ks);
    }
  }

  /** The counts add up to the number of keys seen. */
  lemma {:induction false} TallyTotal(ks: seq<string>)
    ensures Total(Tally(ks)) == |ks|
    decreases |ks|
  {
    if ks != [] {
      TallyTotal(ks[..|ks| - 1]);
    }
  }

  /** The counter's keys are the keys seen, each once; every count is at least 1. */
  lemma {:induction false} TallyWellFormed(ks: seq<string>)
    ensures WellFormed(Tally(ks))
    ensures forall k :: k in Keys(Tally(ks)) <==> k in ks
    decreases |ks|
  {
    if ks != [] {
      var init := ks[..|ks| - 1];
      TallyWellFormed(init);
      BumpWellFormed(Tally(init), ks[|ks| - 1]);
      assert ks == init + [ks[|ks| - 1]];
    }
  }

  // ---------------------------------------------------------------------------
  // the keys each counter sees

  /** `report.reportType` of every report, in order. */
  function TypeKeys(rs: seq<Report>): (ks: seq<string>)
    ensures |ks| == |rs|
  {
    if rs == [] then [] else TypeKeys(rs[..|rs| - 1]) + [rs[|rs| - 1].reportType]
  }

  /** The report counts towards `adminActions`. */
  predicate AdminAction(r: Report) {
    TruthyId(r.adminId) && TruthyStr(r.action)
  }

  /** The report counts towards `userActions`. */
  predicate UserAction(r: Report) {
    TruthyId(r.userId) && TruthyStr(r.action)
  }

  /** The report counts towards `adminActivity`. */
  predicate AdminActivity(r: Report) {
    TruthyId(r.adminId) && TruthyStr(r.adminName)
  }

  /** The actions of the reports with a truthy admin id and a truthy action. */
  function AdminActionKeys(rs: seq<Report>): seq<string> {
    if rs == [] then []
    else
      var r := rs[|rs| - 1];
      AdminActionKeys(rs[..|rs| - 1]) + if AdminAction(r) then [r.action.value] else []
  }

  /** The actions of the reports with a truthy user id and a truthy action. */
  function UserActionKeys(rs: seq<Report>): seq<string> {
    if rs == [] then []
    else
      var r := rs[|rs| - 1];
      UserActionKeys(rs[..|rs| - 1]) + if UserAction(r) then [r.action.value] else []
  }

  /** The admin names of the reports with a truthy admin id and a truthy admin name. */
  function ActivityKeys(rs: seq<Report>): seq<string> {
    if rs == [] then []
    else
      var r := rs[|rs| - 1];
      ActivityKeys(rs[..|rs| - 1]) + if AdminActivity(r) then [r.adminName.value] else []
  }

  /** A key lands in `adminActions` only from a report with an admin id and that action,
      and every such report contributes it. */
  lemma {:induction false} AdminActionKeysFrom(rs: seq<Report>, a: string)
    ensures a in AdminActionKeys(rs) <==>
            exists i :: 0 <= i < |rs| && AdminAction(rs[i]) && rs[i].action.value == a
    decreases |rs|
  {
    if rs != [] {
      var init := rs[..|rs| - 1];
      AdminActionKeysFrom(init, a);
      if a in AdminActionKeys(init) {
        var i :| 0 <= i < |init| && AdminAction(init[i]) && init[i].action.value == a;
        assert rs[i] == init[i];
      }
      if exists i :: 0 <= i < |rs| && AdminAction(rs[i]) && rs[i].action.value == a {
        var i :| 0 <= i < |rs| && AdminAction(rs[i]) && rs[i].action.value == a;
        if i < |init| {
          assert init[i] == rs[i];
        }
      }
    }
  }

  /** A key lands in `userActions` only from a report with a user id and that action,
      and every such report contributes it. */
  lemma {:induction false} UserActionKeysFrom(rs: seq<Report>, a: string)
    ensures a in UserActionKeys(rs) <==>
            exists i :: 0 <= i < |rs| && UserAction(rs[i]) && rs[i].action.value == a
    decreases |rs|
  {
    if rs != [] {
      var init := rs[..|rs| - 1];
      UserActionKeysFrom(init, a);
      if a in UserActionKeys(init) {
        var i :| 0 <= i < |init| && UserAction(init[i]) && init[i].action.value == a;
        assert rs[i] == init[i];
      }
      if exists i :: 0 <= i < |rs| && UserAction(rs[i]) && rs[i].action.value == a {
        var i :| 0 <= i < |rs| && UserAction(rs[i]) && rs[i].action.value == a;
        if i < |init| {
          assert init[i] == rs[i];
        }
      }
    }
  }

  // ---------------------------------------------------------------------------
  // the ranking

  function Descending(e: Entry): int {
    -(e.count as int)
  }

  /** `Object.entries(adminActivity).sort((a, b) => b[1] - a[1]).slice(0, 5)`: the sort is
      stable, so equal counts keep their insertion order. */
  function TopAdmins(activity: Counter): seq<Entry> {
    Take(SortBy(activity, Descending), 5)
  }

  /** The ranking holds at most five entries, all from the counter, by non-increasing
      count; when the counter has at least five, it holds exactly five. */
  lemma TopAdminsRanked(activity: Counter)
    ensures var top := TopAdmins(activity);
            |top| == if |activity| < 5 then |activity| else 5
    ensures var top := TopAdmins(activity);
            forall i, j :: 0 <= i < j < |top| ==> top[i].count >= top[j].count
    ensures forall e :: e in TopAdmins(activity) ==> e in activity
  {
    var sorted := SortBy(activity, Descending);
    var top := TopAdmins(activity);
    assert top == sorted[..|top|];
    forall e | e in top
      ensures e in activity
    {
      assert e in multiset(sorted);
    }
  }

  /** Every entry the ranking leaves out counts no more than any entry it keeps. */
  lemma TopAdminsOmitLess(activity: Counter, e: Entry, kept: Entry)
    requires e in activity && e !in TopAdmins(activity) && kept in TopAdmins(activity)
    ensures e.count <= kept.count
  {
    var sorted := SortBy(activity, Descending);
    var top := TopAdmins(activity);
    assert e in multiset(sorted);
    var j :| 0 <= j < |sorted| && sorted[j] == e;
    var i :| 0 <= i < |top| && top[i] == kept;
    assert sorted[i] == kept;
    assert Descending(sorted[i]) <= Descending(sorted[j]);
  }

  // ---------------------------------------------------------------------------
  // getReportSummary

  /** The summary body. */
  datatype Summary = Summary(totalReports: int, reportsByType: Counter, adminActions: Counter,
                             userActions: Counter, topAdmins: seq<Entry>)

  /** What the summary says about a list of reports. */
  function SummaryOf(rs: seq<Report>): Summary {
    Summary(|rs|, Tally(TypeKeys(rs)), Tally(AdminActionKeys(rs)), Tally(UserActionKeys(rs)),
            TopAdmins(Tally(ActivityKeys(rs))))
  }

  /** Counting a key after a list of keys bumps the counter of the list. */
  lemma TallySnoc(ks: seq<string>, k: string)
    ensures Tally(ks + [k]) == Bump(Tally(ks), k)
  {
    InitOfSnoc(ks, k);
  }

  /** One more report adds its type to the type list. */
  lemma TypeKeysStep(rs: seq<Report>, i: nat)
    requires i < |rs|
    ensures TypeKeys(rs[..i + 1]) == TypeKeys(rs[..i]) + [rs[i].reportType]
  {
    assert rs[..i + 1][..i] == rs[..i];
  }

  /** One more report adds its action to the admin-action list when it counts there. */
  lemma AdminActionKeysStep(rs: seq<Report>, i: nat)
    requires i < |rs|
    ensures AdminActionKeys(rs[..i + 1]) ==
              AdminActionKeys(rs[..i]) + if AdminAction(rs[i]) then [rs[i].action.value] else []
  {
    assert rs[..i + 1][..i] == rs[..i];
  }

  /** One more report adds its action to the user-action list when it counts there. */
  lemma UserActionKeysStep(rs: seq<Report>, i: nat)
    requires i < |rs|
    ensures UserActionKeys(rs[..i + 1]) ==
              UserActionKeys(rs[..i]) + if UserAction(rs[i]) then [rs[i].action.value] else []
  {
    assert rs[..i + 1][..i] == rs[..i];
  }

  /** One more report adds its admin name to the activity list when it counts there. */
  lemma ActivityKeysStep(rs: seq<Report>, i: nat)
    requires i < |rs|
    ensures ActivityKeys(rs[..i + 1]) ==
              ActivityKeys(rs[..i]) + if AdminActivity(rs[i]) then [rs[i].adminName.value] else []
  {
    assert rs[..i + 1][..i] == rs[..i];
  }

  /** The first `forEach`: the counts by type, by admin action and by user action. */
  method CountReports(rs: seq<Report>) returns (byType: Counter, adminActions: Counter, userActions: Counter)
    ensures byType == Tally(TypeKeys(rs))
    ensures adminActions == Tally(AdminActionKeys(rs))
    ensures userActions == Tally(UserActionKeys(rs))
  {
    byType, adminActions, userActions := [], [], [];
    for i := 0 to |rs|
      invariant byType == Tally(TypeKeys(rs[..i]))
      invariant adminActions == Tally(AdminActionKeys(rs[..i]))
      invariant userActions == Tally(UserActionKeys(rs[..i]))
    {
      var r := rs[i];
      TypeKeysStep(rs, i);
      TallySnoc(TypeKeys(rs[..i]), r.reportType);
      byType := Bump(byType, r.reportType);
      AdminActionKeysStep(rs, i);
      if AdminAction(r) {
        TallySnoc(AdminActionKeys(rs[..i]), r.action.value);
        adminActions := Bump(adminActions, r.action.value);
      } else {
        assert AdminActionKeys(rs[..i + 1]) == AdminActionKeys(rs[..i]);
      }
      UserActionKeysStep(rs, i);
      if UserAction(r) {
        TallySnoc(UserActionKeys(rs[..i]), r.action.value);
        userActions := Bump(userActions, r.action.value);
      } else {
        assert UserActionKeys(rs[..i + 1]) == UserActionKeys(rs[..i]);
      }
    }
    TakeAll(rs);
  }

  /** The second `forEach`: the number of reports per admin name. */
  method CountActivity(rs: seq<Report>) returns (activity: Counter)
    ensures activity == Tally(ActivityKeys(rs))
  {
    activity := [];
    for i := 0 to |rs|
      invariant activity == Tally(ActivityKeys(rs[..i]))
    {
      var r := rs[i];
      ActivityKeysStep(rs, i);
      if AdminActivity(r) {
        TallySnoc(ActivityKeys(rs[..i]), r.adminName.value);
        activity := Bump(activity, r.adminName.value);
      } else {
        assert ActivityKeys(rs[..i + 1]) == ActivityKeys(rs[..i]);
      }
    }
    TakeAll(rs);
  }

  /** The two loops that fill the counters, and the ranking. */
  method Summarize(rs: seq<Report>) returns (s: Summary)
    ensures s == SummaryOf(rs)
  {
    var byType, adminActions, userActions := CountReports(rs);
    var activity := CountActivity(rs);
    s := Summary(|rs|, byType, adminActions, userActions, TopAdmins(activity));
  }

  /** The summary's counts mean what they say: `totalReports` is the number of reports
      and the values of `reportsByType` add up to it; each type, action and admin count is
      the number of reports that contribute that key; the ranking is ranked. */
  lemma SummaryMeaning(rs: seq<Report>, key: string)
    ensures SummaryOf(rs).totalReports == |rs|
    ensures Total(SummaryOf(rs).reportsByType) == SummaryOf(rs).totalReports
    ensures CountOf(SummaryOf(rs).reportsByType, key) == multiset(TypeKeys(rs))[key]
    ensures CountOf(SummaryOf(rs).adminActions, key) == multiset(AdminActionKeys(rs))[key]
    ensures CountOf(SummaryOf(rs).userActions, key) == multiset(UserActionKeys(rs))[key]
    ensures CountOf(Tally(ActivityKeys(rs)), key) == multiset(ActivityKeys(rs))[key]
    ensures WellFormed(SummaryOf(rs).reportsByType) && WellFormed(SummaryOf(rs).adminActions) &&
            WellFormed(SummaryOf(rs).userActions)
    ensures |SummaryOf(rs).topAdmins| <= 5
    ensures forall e :: e in SummaryOf(rs).topAdmins ==>
              e.key in ActivityKeys(rs) && e.count == multiset(ActivityKeys(rs))[e.key]
  {
    TallyTotal(TypeKeys(rs));
    TallyCounts(TypeKeys(rs), key);
    TallyCounts(AdminActionKeys(rs), key);
    TallyCounts(UserActionKeys(rs), key);
    TallyCounts(ActivityKeys(rs), key);
    TallyWellFormed(TypeKeys(rs));
    TallyWellFormed(AdminActionKeys(rs));
    TallyWellFormed(UserActionKeys(rs));
    TopAdminsRanked(Tally(ActivityKeys(rs)));
    TopAdminsCount(ActivityKeys(rs));
  }

  /** Every ranked admin comes with the number of times its name was counted. */
  lemma TopAdminsCount(names: seq<string>)
    ensures forall e :: e in TopAdmins(Tally(names)) ==> e.key in names && e.count == multiset(names)[e.key]
  {
    var activity := Tally(names);
    TopAdminsRanked(activity);
    TallyWellFormed(names);
    forall e | e in TopAdmins(activity)
      ensures e.key in names && e.count == multiset(names)[e.key]
    {
      EntryCount(activity, e);
      TallyCounts(names, e.key);
      var j :| 0 <= j < |activity| && activity[j] == e;
      KeysListed(activity, j);
    }
  }

  /** The summary response. */
  datatype SummaryReply =
    | DatesRequired
    | SummaryFailed
    | SummaryBody(summary: Summary, startDate: string, endDate: string)

  /** The date range the handler asks the report service for. */
  datatype Period = Period(startDate: string, endDate: string)

  /** `getReportSummary`. `fetched` is what the report service answers for the period
      (None when it throws); `asked` is the period the handler asks it for, None when it
      does not call it. */
  method GetReportSummary(startDate: Option<string>, endDate: Option<string>,
                          fetched: Option<seq<Report>>)
    returns (resp: Response<SummaryReply>, asked: Option<Period>)
    ensures !(TruthyStr(startDate) && TruthyStr(endDate)) <==> resp.status == 400
    ensures resp.status == 400 ==> resp.body == DatesRequired && asked == None
    ensures resp.status != 400 ==> asked == Some(Period(startDate.value, endDate.value))
    ensures resp.status != 400 && fetched.None? ==> resp == Response(500, SummaryFailed)
    ensures resp.status != 400 && fetched.Some? ==>
              resp == Response(200, SummaryBody(SummaryOf(fetched.value), startDate.value, endDate.value))
  {
    if !(TruthyStr(startDate) && TruthyStr(endDate)) {
      return Response(400, DatesRequired), None;
    }
    asked := Some(Period(startDate.value, endDate.value));
    if fetched.None? {
      return Response(500, SummaryFailed), asked;
    }
    var s := Summarize(fetched.value);
    resp := Response(200, SummaryBody(s, startDate.value, endDate.value));
  }

  // ---------------------------------------------------------------------------
  // the report-type filter of getReports

  /** A query-string parameter: absent, one string, or a repeated parameter. */
  datatype QueryValue = Absent | Text(text: string) | Repeated(items: seq<string>)

  /** `typeof reportType === 'string' ? reportType.split(',') : reportType`, where None
      is `undefined`. */
  function ReportTypes(q: QueryValue): (r: Option<seq<string>>)
    ensures q.Text? ==> r.Some? && |r.value| >= 1 && forall i :: 0 <= i < |r.value| ==> ',' !in r.value[i]
    ensures q.Repeated? ==> r == Some(q.items)
    ensures q.Absent? ==> r == None
  {
    match q
    case Absent => None
    case Text(s) => Some(Split(s, ','))
    case Repeated(items) => Some(items)
  }

  /** A string filter is split into its comma-separated pieces in order: joining them
      with commas again, as the report service does, gives back the string, and the
      pieces of a joined list are that list. */
  lemma ReportTypesRoundTrip(s: string, types: seq<string>)
    requires |types| >= 1 && forall i :: 0 <= i < |types| ==> ',' !in types[i]
    ensures Join(ReportTypes(Text(s)).value, ',') == s
    ensures ReportTypes(Text(Join(types, ','))) == Some(types)
  {
    JoinSplit(s, ',');
    SplitJoin(types, ',');
  }

  // ---------------------------------------------------------------------------
  // createAuditLog

  /** The audit-log request: the admin id of the signed-in user and the body fields.
      `data` is the data field's JSON text, None when it is missing or falsy. */
  datatype AuditRequest = AuditRequest(adminId: Option<int>, userId: Option<int>,
                                       reportType: Option<string>, data: Option<string>)

  /** The arguments of the `createReport` call. */
  datatype SinkCall = SinkCall(adminId: int, userId: Option<int>, reportType: string, data: string)

  /** What `createReport` answers: `{ success: true, reportId }`, `{ success: true }`
      without an id (the compiled service's answer when its insert hits a conflict and
      stores nothing), or `{ success: false }`. A missing id is answered as undefined. */
  datatype SinkResult = Stored(reportId: Option<int>) | Failed

  datatype AuditReply = AdminRequired | FieldsRequired | AuditFailed | AuditCreated(reportId: Option<int>)

  /** The response, and the call made to the report sink (None when it is not called). */
  datatype AuditOutcome = AuditOutcome(resp: Response<AuditReply>, call: Option<SinkCall>)

  /** `createAuditLog`, given what the sink would answer. */
  function CreateAuditLog(req: AuditRequest, sink: SinkResult): (r: AuditOutcome)
    ensures r.resp.status == 403 <==> !TruthyId(req.adminId)
    ensures r.resp.status == 400 <==>
              TruthyId(req.adminId) && !(TruthyStr(req.reportType) && req.data.Some?)
    ensures r.call.Some? <==> r.resp.status != 403 && r.resp.status != 400
    ensures r.call.Some? ==>
              r.call.value == SinkCall(req.adminId.value, if TruthyId(req.userId) then req.userId else None,
                                       req.reportType.value, req.data.value)
    ensures r.call.Some? ==> (r.resp.status == 500 <==> sink.Failed?)
    ensures r.call.Some? && sink.Stored? ==> r.resp == Response(201, AuditCreated(sink.reportId))
  {
    if !TruthyId(req.adminId) then AuditOutcome(Response(403, AdminRequired), None)
    else if !(TruthyStr(req.reportType) && req.data.Some?) then AuditOutcome(Response(400, FieldsRequired), None)
    else
      var call := SinkCall(req.adminId.value, if TruthyId(req.userId) then req.userId else None,
                           req.reportType.value, req.data.value);
      match sink
      case Failed => AuditOutcome(Response(500, AuditFailed), Some(call))
      case Stored(id) => AuditOutcome(Response(201, AuditCreated(id)), Some(call))
  }

  /** The admin check comes first: without an admin id the answer is 403 whatever the
      body holds, and the sink is not called. */
  lemma AdminCheckFirst(req: AuditRequest, sink: SinkResult)
    requires !TruthyId(req.adminId)
    ensures CreateAuditLog(req, sink) == AuditOutcome(Response(403, AdminRequired), None)
  {
  }
}
