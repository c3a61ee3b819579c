/** The exporter: memos grouped by the day they were made, then written out
    as a bullet outline with one entry per day. */
module CopyMemos {
  import opened Text
  import opened Timestamp
  import opened Memos

  // ---------------------------------------------------------------------------
  // getMemosByDate
  // ---------------------------------------------------------------------------

  /** One entry of `dataArr`: a `YYYY-MM-DD` day and its memos. */
  datatype Group = Group(date: string, have: seq<Memo>)

  /** The day of a memo: its `createdAt` read as `YYYY/MM/DD HH:mm:ss` and
      written as `YYYY-MM-DD`. */
  function Day(m: Memo): string
  {
    DateKey(m.createdAt)
  }

  // The grouping below is stated for any day function `key`; the exporter
  // groups by `Day`.

  /** The days of `ms` in the order they first appear, each once. */
  function Days(ms: seq<Memo>, key: Memo -> string): (ds: seq<string>)
    ensures forall a, b :: 0 <= a < b < |ds| ==> ds[a] != ds[b]
  {
    if ms == [] then []
    else
      var ds := Days(ms[..|ms| - 1], key);
      var d := key(ms[|ms| - 1]);
      if d in ds then ds else ds + [d]
  }

  /** The index of the first memo of `ms` made on day `d`, or `|ms|` when
      there is none. */
  function FirstOn(ms: seq<Memo>, key: Memo -> string, d: string): (r: nat)
    ensures r <= |ms| && (r < |ms| ==> key(ms[r]) == d)
    ensures forall j :: 0 <= j < r ==> key(ms[j]) != d
  {
    if ms == [] then 0
    else
      var init := ms[..|ms| - 1];
      var r := FirstOn(init, key, d);
      assert forall j :: 0 <= j < |init| ==> init[j] == ms[j];
      if r < |ms| - 1 then r
      else if key(ms[|ms| - 1]) == d then |ms| - 1
      else |ms|
  }

  /** A day is listed exactly when some memo was made on it. */
  lemma {:induction false} DaysMember(ms: seq<Memo>, key: Memo -> string, d: string)
    ensures d in Days(ms, key) <==> FirstOn(ms, key, d) < |ms|
  {
    if ms != [] {
      DaysMember(ms[..|ms| - 1], key, d);
    }
  }

  /** The memos of `ms` made on day `d`, in their order in `ms`. */
  function OnDay(ms: seq<Memo>, key: Memo -> string, d: string): (r: seq<Memo>)
    ensures forall m :: m in r ==> m in ms && key(m) == d
  {
    if ms == [] then []
    else
      var init := ms[..|ms| - 1];
      assert forall m :: m in init ==> m in ms;
      OnDay(init, key, d) + (if key(ms[|ms| - 1]) == d then [ms[|ms| - 1]] else [])
  }

  /** Every memo of `ms` made on day `d` is in `OnDay(ms, key, d)`. */
  lemma {:induction false} OnDayComplete(ms: seq<Memo>, key: Memo -> string, d: string, i: nat)
    requires i < |ms| && key(ms[i]) == d
    ensures ms[i] in OnDay(ms, key, d)
  {
    if i < |ms| - 1 {
      OnDayComplete(ms[..|ms| - 1], key, d, i);
    }
  }

  /** The grouping: one group per day in first-appearance order, holding
      that day's memos in input order. */
  function ByDate(ms: seq<Memo>, key: Memo -> string): seq<Group>
  {
    Groups(ms, key, Days(ms, key))
  }

  /** One group per day of `ds`, with the memos of `ms` made on it. */
  function Groups(ms: seq<Memo>, key: Memo -> string, ds: seq<string>): (gs: seq<Group>)
    ensures |gs| == |ds|
  {
    if ds == [] then []
    else
      var d := ds[|ds| - 1];
      Groups(ms, key, ds[..|ds| - 1]) + [Group(d, OnDay(ms, key, d))]
  }

  lemma {:induction false} GroupsAt(ms: seq<Memo>, key: Memo -> string, ds: seq<string>, k: nat)
    requires k < |ds|
    ensures Groups(ms, key, ds)[k] == Group(ds[k], OnDay(ms, key, ds[k]))
  {
    if k < |ds| - 1 {
      GroupsAt(ms, key, ds[..|ds| - 1], k);
    }
  }

  /** The groups of days other than a memo's own do not change when it is
      added. */
  lemma {:induction false} GroupsOtherDays(ms: seq<Memo>, key: Memo -> string, m: Memo, ds: seq<string>)
    requires key(m) !in ds
    ensures Groups(ms + [m], key, ds) == Groups(ms, key, ds)
  {
    if ds != [] {
      var init, d := ds[..|ds| - 1], ds[|ds| - 1];
      assert key(m) !in init && key(m) != d;
      GroupsOtherDays(ms, key, m, init);
      OnDaySnoc(ms, key, m, d);
      assert OnDay(ms + [m], key, d) == OnDay(ms, key, d) + [];
      assert OnDay(ms + [m], key, d) == OnDay(ms, key, d);
      assert Groups(ms + [m], key, ds) == Groups(ms + [m], key, init) + [Group(d, OnDay(ms + [m], key, d))];
      assert Groups(ms, key, ds) == Groups(ms, key, init) + [Group(d, OnDay(ms, key, d))];
    }
  }

  lemma ByDateAt(ms: seq<Memo>, key: Memo -> string, k: nat)
    requires k < |Days(ms, key)|
    ensures |ByDate(ms, key)| == |Days(ms, key)|
    ensures ByDate(ms, key)[k] == Group(Days(ms, key)[k], OnDay(ms, key, Days(ms, key)[k]))
  {
    GroupsAt(ms, key, Days(ms, key), k);
  }

  /** Adding a memo keeps every group it does not open, extending the one
      of its own day. */
  lemma ByDateKeep(ms: seq<Memo>, key: Memo -> string, m: Memo, k: nat)
    requires k < |Days(ms, key)| && k < |Days(ms + [m], key)|
    requires Days(ms + [m], key)[k] == Days(ms, key)[k]
    ensures var g := ByDate(ms, key)[k];
      ByDate(ms + [m], key)[k] == Group(g.date, g.have + (if key(m) == g.date then [m] else []))
  {
    ByDateAt(ms + [m], key, k);
    ByDateAt(ms, key, k);
    OnDaySnoc(ms, key, m, Days(ms, key)[k]);
  }

  /** The days after a memo: its day is added when it is new. */
  lemma DaysSnoc(ms: seq<Memo>, key: Memo -> string, m: Memo)
    ensures Days(ms + [m], key) == Days(ms, key) + (if key(m) in Days(ms, key) then [] else [key(m)])
  {
    var ms' := ms + [m];
    assert ms'[..|ms'| - 1] == ms;
  }

  /** A memo on a day already seen joins that day's group. */
  lemma ByDateOld(ms: seq<Memo>, key: Memo -> string, m: Memo, j: nat)
    requires j < |Days(ms, key)| && Days(ms, key)[j] == key(m)
    ensures var gs := ByDate(ms, key);
      ByDate(ms + [m], key) == gs[j := Group(gs[j].date, gs[j].have + [m])]
  {
    var ds := Days(ms, key);
    DaysSnoc(ms, key, m);
    assert Days(ms + [m], key) == ds;
    var gs := ByDate(ms, key);
    var lhs, rhs := ByDate(ms + [m], key), gs[j := Group(gs[j].date, gs[j].have + [m])];
    assert |lhs| == |ds| == |rhs|;
    forall k | 0 <= k < |ds|
      ensures lhs[k] == rhs[k]
    {
      ByDateOldAt(ms, key, m, j, k);
    }
  }

  /** ByDateOld, group by group. */
  lemma ByDateOldAt(ms: seq<Memo>, key: Memo -> string, m: Memo, j: nat, k: nat)
    requires j < |Days(ms, key)| && Days(ms, key)[j] == key(m)
    requires k < |Days(ms, key)| && Days(ms + [m], key) == Days(ms, key)
    ensures var g := ByDate(ms, key)[k];
      ByDate(ms + [m], key)[k] == if k == j then Group(g.date, g.have + [m]) else g
  {
    ByDateKeep(ms, key, m, k);
    ByDateAt(ms, key, k);
    if k != j {
      assert Days(ms, key)[k] != key(m);
    }
  }

  /** A memo on a new day opens a group at the end. */
  lemma ByDateNew(ms: seq<Memo>, key: Memo -> string, m: Memo)
    requires key(m) !in Days(ms, key)
    ensures ByDate(ms + [m], key) == ByDate(ms, key) + [Group(key(m), [m])]
  {
    var ds := Days(ms, key);
    DaysSnoc(ms, key, m);
    var ds' := ds + [key(m)];
    assert Days(ms + [m], key) == ds';
    assert ds'[..|ds'| - 1] == ds;
    GroupsOtherDays(ms, key, m, ds);
    OnDayNone(ms, key, key(m));
    OnDaySnoc(ms, key, m, key(m));
  }

  /** Adding a memo extends the list of its own day only. */
  lemma OnDaySnoc(ms: seq<Memo>, key: Memo -> string, m: Memo, d: string)
    ensures OnDay(ms + [m], key, d) == OnDay(ms, key, d) + (if key(m) == d then [m] else [])
  {
    var ms' := ms + [m];
    assert ms'[..|ms'| - 1] == ms;
  }

  /** A day no group carries is not listed. */
  lemma NotListed(ms: seq<Memo>, key: Memo -> string, d: string)
    requires forall k :: 0 <= k < |ByDate(ms, key)| ==> ByDate(ms, key)[k].date != d
    ensures d !in Days(ms, key)
  {
    var ds := Days(ms, key);
    forall k | 0 <= k < |ds|
      ensures ds[k] != d
    {
      ByDateAt(ms, key, k);
    }
  }

  /** A memo collected for day `d` means some memo was made on `d`. */
  lemma OnDayFirst(ms: seq<Memo>, key: Memo -> string, d: string)
    ensures OnDay(ms, key, d) != [] ==> FirstOn(ms, key, d) < |ms|
  {
    if OnDay(ms, key, d) != [] {
      var m := OnDay(ms, key, d)[0];
      assert m in ms && key(m) == d;
      var i :| 0 <= i < |ms| && ms[i] == m;
      assert FirstOn(ms, key, d) <= i;
    }
  }

  /** No memo of an unlisted day is collected. */
  lemma OnDayNone(ms: seq<Memo>, key: Memo -> string, d: string)
    requires d !in Days(ms, key)
    ensures OnDay(ms, key, d) == []
  {
    DaysMember(ms, key, d);
    OnDayFirst(ms, key, d);
  }

  /** `getMemosByDate`: every memo goes through the `forEach` callback in
      turn, grouped by `Day`. */
  method GetMemosByDate(memos: seq<Memo>) returns (dataArr: seq<Group>)
    ensures dataArr == ByDate(memos, Day)
  {
    dataArr := [];
    var i := 0;
    while i < |memos|
      invariant 0 <= i <= |memos|
      invariant dataArr == ByDate(memos[..i], Day)
    {
      assert memos[..i + 1] == memos[..i] + [memos[i]];
      dataArr := PlaceMemo(dataArr, memos[..i], memos[i], Day);
      i := i + 1;
    }
    assert memos[..|memos|] == memos;
  }

  /** The `forEach` callback: `some` looks for the group of the memo's day
      and appends the memo there; without one a new group is pushed. */
  method PlaceMemo(dataArr: seq<Group>, ghost seen: seq<Memo>, mapItem: Memo, key: Memo -> string)
    returns (next: seq<Group>)
    requires dataArr == ByDate(seen, key)
    ensures next == ByDate(seen + [mapItem], key)
  {
    var date := key(mapItem);
    if |dataArr| == 0 {
      ByDateNew(seen, key, mapItem);
      next := [Group(date, [mapItem])];
    } else {
      var j := FindGroup(dataArr, date);
      if j < |dataArr| {
        ByDateAt(seen, key, j);
        ByDateOld(seen, key, mapItem, j);
        next := dataArr[j := Group(dataArr[j].date, dataArr[j].have + [mapItem])];
      } else {
        NotListed(seen, key, date);
        ByDateNew(seen, key, mapItem);
        next := dataArr + [Group(date, [mapItem])];
      }
    }
  }

  /** The `some` scan: the index of the first group of day `date`, or the
      number of groups when there is none. */
  method FindGroup(dataArr: seq<Group>, date: string) returns (j: nat)
    ensures j <= |dataArr| && (j < |dataArr| ==> dataArr[j].date == date)
    ensures forall k :: 0 <= k < j ==> dataArr[k].date != date
  {
    j := 0;
    while j < |dataArr| && dataArr[j].date != date
      invariant j <= |dataArr|
      invariant forall k :: 0 <= k < j ==> dataArr[k].date != date
    {
      j := j + 1;
    }
  }

  /** Every group is non-empty, its memos are all of that day, and the days
      of the groups are pairwise different. */
  lemma ByDateGroups(ms: seq<Memo>, key: Memo -> string)
    ensures var gs := ByDate(ms, key);
      (forall a, b :: 0 <= a < b < |gs| ==> gs[a].date != gs[b].date)
      && (forall k :: 0 <= k < |gs| ==> gs[k].have != [] && forall m :: m in gs[k].have ==> key(m) == gs[k].date)
  {
    var gs := ByDate(ms, key);
    forall k | 0 <= k < |gs|
      ensures gs[k] == Group(Days(ms, key)[k], OnDay(ms, key, Days(ms, key)[k]))
      ensures gs[k].have != []
    {
      var d := Days(ms, key)[k];
      ByDateAt(ms, key, k);
      DaysMember(ms, key, d);
      OnDayComplete(ms, key, d, FirstOn(ms, key, d));
    }
  }

  /** The memos of all groups, group after group. */
  function Flatten(gs: seq<Group>): seq<Memo>
  {
    if gs == [] then [] else gs[0].have + Flatten(gs[1..])
  }

  lemma {:induction false} FlattenAppend(gs: seq<Group>, g: Group)
    ensures Flatten(gs + [g]) == Flatten(gs) + g.have
  {
    if gs == [] {
      assert [g][1..] == [];
    } else {
      assert (gs + [g])[1..] == gs[1..] + [g];
      FlattenAppend(gs[1..], g);
    }
  }

  lemma {:induction false} FlattenUpdate(gs: seq<Group>, j: nat, m: Memo)
    requires j < |gs|
    ensures multiset(Flatten(gs[j := Group(gs[j].date, gs[j].have + [m])]))
      == multiset(Flatten(gs)) + multiset{m}
  {
    var g' := Group(gs[j].date, gs[j].have + [m]);
    var gs' := gs[j := g'];
    assert Flatten(gs) == gs[0].have + Flatten(gs[1..]);
    assert Flatten(gs') == gs'[0].have + Flatten(gs'[1..]);
    if j == 0 {
      assert gs'[1..] == gs[1..];
      assert gs'[0].have == gs[0].have + [m];
    } else {
      assert gs'[1..] == gs[1..][j - 1 := g'];
      assert gs'[0] == gs[0];
      FlattenUpdate(gs[1..], j - 1, m);
    }
  }

  /** Putting the groups back together gives a permutation of the input:
      every memo lands in exactly one group. */
  lemma {:induction false} ByDatePermutation(ms: seq<Memo>, key: Memo -> string)
    ensures multiset(Flatten(ByDate(ms, key))) == multiset(ms)
  {
    if ms != [] {
      var init, m := ms[..|ms| - 1], ms[|ms| - 1];
      assert ms == init + [m];
      ByDatePermutation(init, key);
      if key(m) in Days(init, key) {
        var j :| 0 <= j < |Days(init, key)| && Days(init, key)[j] == key(m);
        ByDateOld(init, key, m, j);
        FlattenUpdate(ByDate(init, key), j, m);
      } else {
        ByDateNew(init, key, m);
        FlattenAppend(ByDate(init, key), Group(key(m), [m]));
      }
    }
  }

  /** Groups come in the order their days first appear. */
  lemma {:induction false} ByDateOrder(ms: seq<Memo>, key: Memo -> string, a: nat, b: nat)
    requires a < b < |Days(ms, key)|
    ensures FirstOn(ms, key, Days(ms, key)[a]) < FirstOn(ms, key, Days(ms, key)[b])
  {
    var init := ms[..|ms| - 1];
    var di := Days(init, key);
    var da, db := Days(ms, key)[a], Days(ms, key)[b];
    if b < |di| {
      assert da == di[a] && db == di[b];
      ByDateOrder(init, key, a, b);
      DaysMember(init, key, da);
      DaysMember(init, key, db);
    } else {
      assert da == di[a];
      DaysMember(init, key, da);
      DaysMember(init, key, db);
    }
  }

  // ---------------------------------------------------------------------------
  // transferMemosIntoText
  // ---------------------------------------------------------------------------

  /** The end of the line `.` can run to from `i`. */
  function LineEnd(s: string, i: nat): (e: nat)
    requires i <= |s|
    ensures i <= e <= |s| && (e < |s| ==> IsLineTerminator(s[e]))
    ensures forall j :: i <= j < e ==> !IsLineTerminator(s[j])
    decreases |s| - i
  {
    if i == |s| || IsLineTerminator(s[i]) then i else LineEnd(s, i + 1)
  }

  /** `s.match(/TASK-(.*)?/g)` from index `from`: every match, left to right. */
  function TaskMatches(s: string, from: nat): seq<string>
    requires from <= |s|
    decreases |s| - from
  {
    var i := IndexOfFrom(s, "TASK-", from);
    if i < 0 then []
    else
      var e := LineEnd(s, i + 5);
      [s[i..e]] + TaskMatches(s, e)
  }

  /** Element `[1]` of that array, which is `undefined` for a single match. */
  function TaskMark(name: string): string
  {
    var ms := TaskMatches(name, 0);
    if |ms| >= 2 then ms[1] else "undefined"
  }

  /** The bullet of a memo, chosen by comparing its type name. */
  function Bullet(t: MemoType): string
  {
    var name := TypeName(t);
    if name == "JOURNAL" then "- "
    else if name == "TASK-TODO" then "- [ ] "
    else if name == "TASK-DONE" then "- [x] "
    else "- [" + TaskMark(name) + "] "
  }

  /** A type name holds one match when the mark has no line terminator, so
      every other task mark is written `undefined`. */
  lemma OtherMarkUndefined(mark: string)
    requires NoLineTerminator(mark) && mark != "TODO" && mark != "DONE"
    ensures Bullet(TaskOther(mark)) == "- [undefined] "
  {
    var name := "TASK-" + mark;
    OtherName(mark, name);
    SingleTaskMatch(name);
    BulletUndefined(TaskOther(mark), name);
  }

  /** The type name of another task mark, and what sets it apart. */
  lemma OtherName(mark: string, name: string)
    requires NoLineTerminator(mark) && mark != "TODO" && mark != "DONE"
    requires name == "TASK-" + mark
    ensures TypeName(TaskOther(mark)) == name
    ensures |name| >= 5 && name[..5] == "TASK-"
    ensures forall j :: 5 <= j < |name| ==> !IsLineTerminator(name[j])
    ensures name != "JOURNAL" && name != "TASK-TODO" && name != "TASK-DONE"
  {
    assert name[..5] == "TASK-";
    forall j | 5 <= j < |name|
      ensures !IsLineTerminator(name[j])
    {
      assert name[j] == mark[j - 5];
    }
    assert name[5..] == mark;
    assert "TASK-TODO"[5..] == "TODO" && "TASK-DONE"[5..] == "DONE";
    assert name[0] == 'T';
  }

  /** A type name that is none of the three known ones and has a single
      match takes the `undefined` bullet. */
  lemma BulletUndefined(t: MemoType, name: string)
    requires TypeName(t) == name && name != "JOURNAL" && name != "TASK-TODO" && name != "TASK-DONE"
    requires TaskMatches(name, 0) == [name]
    ensures Bullet(t) == "- [undefined] "
  {
    var ms := TaskMatches(name, 0);
    assert |ms| == 1;
    var mark := TaskMark(name);
    assert mark == "undefined";
    assert Bullet(t) == "- [" + mark + "] ";
  }

  /** A name with `TASK-` in front and no line terminator after it is one
      match, running to its end. */
  lemma SingleTaskMatch(name: string)
    requires |name| >= 5 && name[..5] == "TASK-"
    requires forall j :: 5 <= j < |name| ==> !IsLineTerminator(name[j])
    ensures TaskMatches(name, 0) == [name]
  {
    assert At(name, "TASK-", 0);
    assert IndexOfFrom(name, "TASK-", 0) == 0;
    LineEndAll(name, 5);
    assert IndexOfFrom(name, "TASK-", |name|) == -1;
    assert name[0..|name|] == name;
  }

  lemma {:induction false} LineEndAll(s: string, i: nat)
    requires i <= |s| && forall j :: i <= j < |s| ==> !IsLineTerminator(s[j])
    ensures LineEnd(s, i) == |s|
    decreases |s| - i
  {
    if i < |s| {
      LineEndAll(s, i + 1);
    }
  }

  /** The three named types get their own bullets. */
  lemma NamedBullets()
    ensures Bullet(Journal) == "- " && Bullet(TaskTodo) == "- [ ] " && Bullet(TaskDone) == "- [x] "
  {
  }

  /** `" ^"` then six characters that are not white space: a block id. */
  predicate BlockIdAt(s: string, p: nat)
  {
    p + 8 <= |s| && s[p] == ' ' && s[p + 1] == '^' && forall j :: p + 2 <= j < p + 8 ==> !IsSpace(s[j])
  }

  /** `s.replace(/ \^\S{6}/g, '')`: block ids cut left to right, a search
      resuming after each cut. */
  function StripBlockIds(s: string): (r: string)
    ensures |r| <= |s|
    decreases |s|
  {
    if s == [] then []
    else if BlockIdAt(s, 0) then StripBlockIds(s[8..])
    else [s[0]] + StripBlockIds(s[1..])
  }

  /** A space then a caret at `i` is an occurrence of `" ^"`. */
  lemma PairAt(s: string, i: nat)
    requires i + 2 <= |s|
    ensures s[i] == ' ' && s[i + 1] == '^' ==> Contains(s, " ^")
  {
    if s[i] == ' ' && s[i + 1] == '^' {
      assert At(s, " ^", i);
      ContainsIff(s, " ^");
    }
  }

  /** An occurrence in a tail, a head or a piece of a concatenation is one
      in the whole. */
  lemma PairInTail(s: string, lo: nat)
    requires lo <= |s|
    ensures Contains(s[lo..], " ^") ==> Contains(s, " ^")
  {
    if Contains(s[lo..], " ^") {
      assert s[lo..|s|] == s[lo..];
      ContainsInfix(s, " ^", lo, |s|);
    }
  }

  lemma PairInParts(a: string, b: string)
    ensures Contains(a, " ^") ==> Contains(a + b, " ^")
    ensures Contains(b, " ^") ==> Contains(a + b, " ^")
  {
    var s := a + b;
    assert s[..|a|] == a && s[|a|..] == b;
    if Contains(a, " ^") {
      ContainsInfix(s, " ^", 0, |a|);
    }
    PairInTail(s, |a|);
  }

  /** Text without `" ^"` is left as it is. */
  lemma {:induction false} StripNothing(s: string)
    requires !Contains(s, " ^")
    ensures StripBlockIds(s) == s
  {
    if s != [] {
      if |s| >= 2 {
        PairAt(s, 0);
      }
      PairInTail(s, 1);
      StripNothing(s[1..]);
      assert [s[0]] + s[1..] == s;
    }
  }

  /** A head that holds no `" ^"` and does not end in a space: no block id
      can start inside it. */
  predicate Guarded(h: string)
  {
    h != [] && h[|h| - 1] != ' ' && forall j :: 0 <= j < |h| - 1 ==> !(h[j] == ' ' && h[j + 1] == '^')
  }

  /** A guarded head is kept, and the rest is stripped on its own. */
  lemma {:induction false} StripGuarded(h: string, r: string)
    requires Guarded(h)
    ensures StripBlockIds(h + r) == h + StripBlockIds(r)
    decreases |h|
  {
    var s := h + r;
    assert !BlockIdAt(s, 0) by {
      if |h| >= 2 {
        assert !(h[0] == ' ' && h[1] == '^');
      }
    }
    assert s[1..] == h[1..] + r;
    if |h| > 1 {
      assert Guarded(h[1..]) by {
        forall j | 0 <= j < |h| - 2
          ensures !(h[1..][j] == ' ' && h[1..][j + 1] == '^')
        {
          assert h[1..][j] == h[j + 1] && h[1..][j + 1] == h[j + 2];
        }
      }
      StripGuarded(h[1..], r);
      assert [h[0]] + h[1..] == h;
    }
  }

  /** A line ending in a block id loses it: the text before it keeps all
      its characters when it holds no `" ^"` itself. */
  lemma {:induction false} StripLineId(c: string, id: string)
    requires |id| == 6 && forall j :: 0 <= j < 6 ==> !IsSpace(id[j])
    requires !Contains(c, " ^")
    ensures StripBlockIds(c + " ^" + id + "\n") == c + "\n"
    decreases |c|
  {
    var s := c + " ^" + id + "\n";
    if c == [] {
      assert s == " ^" + id + "\n";
      assert BlockIdAt(s, 0);
      assert s[8..] == "\n";
      assert !BlockIdAt("\n", 0);
      assert "\n"[1..] == [];
    } else {
      if |c| >= 2 {
        PairAt(c, 0);
      } else {
        assert s[1] == ' ';
      }
      assert !BlockIdAt(s, 0);
      assert s[1..] == c[1..] + " ^" + id + "\n";
      PairInTail(c, 1);
      StripLineId(c[1..], id);
      assert [c[0]] + c[1..] == c;
    }
  }

  /** One memo of the outline: four spaces, the bullet, the body, a new line. */
  function MemoLine(m: Memo, tpl: Composition): string
  {
    "    " + Bullet(m.memoType) + ComposeBody(tpl, TimeOf(m.createdAt), m.content) + "\n"
  }

  /** The heading line of a group; `format` is the daily-note date format
      applied to the group's `YYYY-MM-DD` day. */
  function DayLine(g: Group, format: string -> string): string
  {
    "- [[" + format(g.date) + "]]\n"
  }

  /** The text after the memos of `ms` have each been added to `acc`, with
      block ids cut from the whole text after each one. */
  function AddMemos(acc: string, ms: seq<Memo>, line: Memo -> string): string
  {
    if ms == [] then acc
    else StripBlockIds(AddMemos(acc, ms[..|ms| - 1], line) + line(ms[|ms| - 1]))
  }

  /** `MemoLine` under a template, as a function of the memo. */
  function Line(tpl: Composition): Memo -> string
  {
    m => MemoLine(m, tpl)
  }

  /** The text before `<br>` is expanded, after the groups `gs`. */
  function Outline(gs: seq<Group>, tpl: Composition, format: string -> string): string
  {
    if gs == [] then ""
    else
      var g := gs[|gs| - 1];
      AddMemos(Outline(gs[..|gs| - 1], tpl, format) + DayLine(g, format), g.have, Line(tpl))
  }

  /** The outline as its lines, with nothing cut: each group's heading and
      then its memos' lines. */
  function Lines(gs: seq<Group>, tpl: Composition, format: string -> string): string
  {
    if gs == [] then ""
    else Lines(gs[..|gs| - 1], tpl, format) + DayLine(gs[|gs| - 1], format) + MemoLines(gs[|gs| - 1].have, Line(tpl))
  }

  function MemoLines(ms: seq<Memo>, line: Memo -> string): string
  {
    if ms == [] then "" else MemoLines(ms[..|ms| - 1], line) + line(ms[|ms| - 1])
  }

  /** The inner loop: each memo's line appended, then block ids cut. */
  method AddGroup(outputText: string, dataArr: seq<Memo>, tpl: Composition) returns (text: string)
    ensures text == AddMemos(outputText, dataArr, Line(tpl))
  {
    text := outputText;
    var i := 0;
    while i < |dataArr|
      invariant 0 <= i <= |dataArr|
      invariant text == AddMemos(outputText, dataArr[..i], Line(tpl))
    {
      text := text + MemoLine(dataArr[i], tpl);
      text := StripBlockIds(text);
      AddMemosNext(outputText, dataArr, i, Line(tpl), text);
      i := i + 1;
    }
    assert dataArr[..i] == dataArr;
  }

  lemma AddMemosNext(acc: string, ms: seq<Memo>, i: nat, line: Memo -> string, r: string)
    requires i < |ms| && r == StripBlockIds(AddMemos(acc, ms[..i], line) + line(ms[i]))
    ensures AddMemos(acc, ms[..i + 1], line) == r
  {
    assert ms[..i + 1][..i] == ms[..i];
  }

  /** `transferMemosIntoText`: a heading per group, a line per memo, block
      ids cut after each memo, then every `<br>` made a new line indented by
      four spaces. */
  method TransferMemosIntoText(memosArray: seq<Group>, tpl: Composition, format: string -> string)
    returns (text: string)
    ensures text == ReplaceAll(Outline(memosArray, tpl, format), "<br>", "\n    ")
  {
    var outputText := "";
    var g := 0;
    while g < |memosArray|
      invariant 0 <= g <= |memosArray|
      invariant outputText == Outline(memosArray[..g], tpl, format)
    {
      ghost var done := memosArray[..g + 1];
      assert done[..g] == memosArray[..g] && done[g] == memosArray[g];
      outputText := outputText + DayLine(memosArray[g], format);
      outputText := AddGroup(outputText, memosArray[g].have, tpl);
      assert outputText == Outline(done, tpl, format);
      g := g + 1;
    }
    assert memosArray[..g] == memosArray;
    text := ReplaceAll(outputText, "<br>", "\n    ");
  }

  /** The exported text holds no `<br>`. */
  lemma NoBreakTags(gs: seq<Group>, tpl: Composition, format: string -> string)
    ensures !Contains(ReplaceAll(Outline(gs, tpl, format), "<br>", "\n    "), "<br>")
  {
    ReplaceAllLeavesNone(Outline(gs, tpl, format), "<br>", "\n    ");
  }

  /** When no line holds `" ^"`, nothing is cut: the outline is each
      group's heading followed by its memos' lines. */
  lemma {:induction false} OutlineLines(gs: seq<Group>, tpl: Composition, format: string -> string)
    requires !Contains(Lines(gs, tpl, format), " ^")
    ensures Outline(gs, tpl, format) == Lines(gs, tpl, format)
  {
    if gs != [] {
      var init, g := gs[..|gs| - 1], gs[|gs| - 1];
      var before := Lines(init, tpl, format) + DayLine(g, format);
      assert Lines(gs, tpl, format) == before + MemoLines(g.have, Line(tpl));
      PairInParts(before, MemoLines(g.have, Line(tpl)));
      PairInParts(Lines(init, tpl, format), DayLine(g, format));
      OutlineLines(init, tpl, format);
      AddMemosLines(before, g.have, Line(tpl));
    }
  }

  lemma {:induction false} AddMemosLines(acc: string, ms: seq<Memo>, line: Memo -> string)
    requires !Contains(acc + MemoLines(ms, line), " ^")
    ensures AddMemos(acc, ms, line) == acc + MemoLines(ms, line)
  {
    if ms != [] {
      var init, m := ms[..|ms| - 1], ms[|ms| - 1];
      var t := acc + MemoLines(init, line);
      assert acc + MemoLines(ms, line) == t + line(m);
      PairInParts(t, line(m));
      AddMemosLines(acc, init, line);
      StripNothing(t + line(m));
    }
  }

  // ---------------------------------------------------------------------------
  // The outline for every input: block ids are cut within lines
  // ---------------------------------------------------------------------------

  /** A block id at the start of `p + "\n" + t` lies within `p`. */
  lemma BlockIdBeforeNewLine(p: string, t: string, s: string)
    requires p != [] && s == p + "\n" + t
    ensures BlockIdAt(s, 0) <==> BlockIdAt(p, 0)
  {
    if |p| >= 8 {
      assert forall j :: 0 <= j < 8 ==> s[j] == p[j];
    } else {
      assert s[|p|] == '\n';
      if |p| >= 2 {
        assert !BlockIdAt(s, 0) by {
          assert IsSpace(s[|p|]);
        }
      }
    }
  }

  /** A block id holds no new line, so cutting ids from `p + "\n" + t` cuts
      them from each side on its own. */
  lemma {:induction false} StripAcrossNewLine(p: string, t: string)
    ensures StripBlockIds(p + "\n" + t) == StripBlockIds(p) + "\n" + StripBlockIds(t)
    decreases |p|
  {
    var s := p + "\n" + t;
    if p == [] {
      assert s[0] == '\n' && s[1..] == t;
    } else {
      BlockIdBeforeNewLine(p, t, s);
      if BlockIdAt(p, 0) {
        assert s[8..] == p[8..] + "\n" + t;
        StripAcrossNewLine(p[8..], t);
      } else {
        assert s[1..] == p[1..] + "\n" + t;
        StripAcrossNewLine(p[1..], t);
      }
    }
  }

  /** Cutting block ids brings in no character. */
  lemma {:induction false} StripKeepsAbsent(s: string, c: char)
    requires c !in s
    ensures c !in StripBlockIds(s)
    decreases |s|
  {
    if s != [] {
      if BlockIdAt(s, 0) {
        assert forall j :: 0 <= j < |s| - 8 ==> s[8..][j] == s[j + 8];
        StripKeepsAbsent(s[8..], c);
      } else {
        assert forall j :: 0 <= j < |s| - 1 ==> s[1..][j] == s[j + 1];
        StripKeepsAbsent(s[1..], c);
      }
    }
  }

  function StripEach(ps: seq<string>): seq<string>
  {
    seq(|ps|, i requires 0 <= i < |ps| => StripBlockIds(ps[i]))
  }

  lemma {:induction false} StripJoin(xs: seq<string>)
    requires |xs| >= 1
    ensures StripBlockIds(Join(xs, "\n")) == Join(StripEach(xs), "\n")
  {
    if |xs| > 1 {
      StripJoin(xs[1..]);
      StripAcrossNewLine(xs[0], Join(xs[1..], "\n"));
      assert StripEach(xs)[1..] == StripEach(xs[1..]);
    }
  }

  /** Block ids are cut line by line: the lines of the result are the
      lines of the input, each with its ids cut. */
  lemma StripLines(s: string)
    ensures Split(StripBlockIds(s), '\n') == StripEach(Split(s, '\n'))
  {
    var xs := Split(s, '\n');
    JoinSplit(s, '\n');
    StripJoin(xs);
    SplitPiecesFree(s, '\n');
    forall k | 0 <= k < |xs|
      ensures '\n' !in StripEach(xs)[k]
    {
      StripKeepsAbsent(xs[k], '\n');
    }
    SplitJoin(StripEach(xs), '\n');
  }

  /** Every guarded head of the line `l` is also a head of the line `o`. */
  predicate Keeps(o: string, l: string)
  {
    forall k :: 0 < k <= |l| && Guarded(l[..k]) ==> StartsWith(o, l[..k])
  }

  /** Line for line, `os` keeps the guarded heads of `ls`. */
  predicate KeepsEach(os: seq<string>, ls: seq<string>)
  {
    |os| == |ls| && forall i :: 0 <= i < |ls| ==> Keeps(os[i], ls[i])
  }

  lemma KeepsStrip(o: string, l: string)
    requires Keeps(o, l)
    ensures Keeps(StripBlockIds(o), l)
  {
    forall k | 0 < k <= |l| && Guarded(l[..k])
      ensures StartsWith(StripBlockIds(o), l[..k])
    {
      assert o == l[..k] + o[k..];
      StripGuarded(l[..k], o[k..]);
    }
  }

  lemma KeepsEachStrip(os: seq<string>, ls: seq<string>)
    requires KeepsEach(os, ls)
    ensures KeepsEach(StripEach(os), ls)
  {
    forall i | 0 <= i < |ls|
      ensures Keeps(StripEach(os)[i], ls[i])
    {
      KeepsStrip(os[i], ls[i]);
    }
  }

  lemma KeepsEachSame(xs: seq<string>)
    ensures KeepsEach(xs, xs)
  {
    forall i, k | 0 <= i < |xs| && 0 < k <= |xs[i]| && Guarded(xs[i][..k])
      ensures StartsWith(xs[i], xs[i][..k])
    {
    }
  }

  /** Empty, or ending in a new line. */
  predicate EndsLine(s: string)
  {
    s == [] || s[|s| - 1] == '\n'
  }

  lemma SplitEndsLine(s: string)
    requires s != [] && s[|s| - 1] == '\n'
    ensures Split(s, '\n') == Split(s[..|s| - 1], '\n') + [""]
  {
    var a := s[..|s| - 1];
    assert s == a + ['\n'] + [];
    SplitAround(a, [], '\n');
    assert Split([], '\n') == [""];
  }

  /** The relation holds piece by piece over a concatenation. */
  lemma KeepsEachAppend(os: seq<string>, ls: seq<string>, xs: seq<string>)
    requires KeepsEach(os, ls)
    ensures KeepsEach(os + xs, ls + xs)
  {
    KeepsEachSame(xs);
    forall i | 0 <= i < |ls + xs|
      ensures Keeps((os + xs)[i], (ls + xs)[i])
    {
      if i < |ls| {
        assert (os + xs)[i] == os[i] && (ls + xs)[i] == ls[i];
      } else {
        assert (os + xs)[i] == xs[i - |ls|] && (ls + xs)[i] == xs[i - |ls|];
      }
    }
  }

  lemma KeepsEachInit(os: seq<string>, ls: seq<string>, a: string, b: string)
    requires KeepsEach(os + [a], ls + [b])
    ensures KeepsEach(os, ls)
  {
    forall i | 0 <= i < |ls|
      ensures Keeps(os[i], ls[i])
    {
      assert (os + [a])[i] == os[i] && (ls + [b])[i] == ls[i];
    }
  }

  /** Appending the same text to two texts, each ending in a new line,
      keeps the line-for-line relation between them. */
  lemma AppendKept(o: string, l: string, x: string)
    requires EndsLine(o) && EndsLine(l) && KeepsEach(Split(o, '\n'), Split(l, '\n'))
    ensures KeepsEach(Split(o + x, '\n'), Split(l + x, '\n'))
  {
    if o == [] || l == [] {
      if o != [] {
        SplitEndsLine(o);
      }
      if l != [] {
        SplitEndsLine(l);
      }
      assert o == [] && l == [];
      assert o + x == x && l + x == x;
      KeepsEachSame(Split(x, '\n'));
    } else {
      var o', l' := o[..|o| - 1], l[..|l| - 1];
      SplitEndsLine(o);
      SplitEndsLine(l);
      KeepsEachInit(Split(o', '\n'), Split(l', '\n'), "", "");
      assert o + x == o' + ['\n'] + x && l + x == l' + ['\n'] + x;
      SplitAround(o', x, '\n');
      SplitAround(l', x, '\n');
      KeepsEachAppend(Split(o', '\n'), Split(l', '\n'), Split(x, '\n'));
    }
  }

  lemma StripEndsLine(s: string)
    requires EndsLine(s)
    ensures EndsLine(StripBlockIds(s))
  {
    if s != [] {
      assert s == s[..|s| - 1] + "\n" + [];
      StripAcrossNewLine(s[..|s| - 1], []);
    }
  }

  /** A line that ends in a new line. */
  predicate FullLine(x: string)
  {
    x != [] && x[|x| - 1] == '\n'
  }

  /** One memo: its line appended to both texts, then ids cut from one. */
  lemma AddLineKept(o: string, l: string, x: string)
    requires EndsLine(o) && EndsLine(l) && KeepsEach(Split(o, '\n'), Split(l, '\n'))
    requires FullLine(x)
    ensures EndsLine(StripBlockIds(o + x)) && EndsLine(l + x)
    ensures KeepsEach(Split(StripBlockIds(o + x), '\n'), Split(l + x, '\n'))
  {
    AppendKept(o, l, x);
    StripLines(o + x);
    KeepsEachStrip(Split(o + x, '\n'), Split(l + x, '\n'));
    StripEndsLine(o + x);
  }

  /** The inner loop keeps the relation: after any memos, the cut text keeps
      the guarded heads of the uncut lines. */
  lemma {:induction false} AddMemosKept(acc: string, lacc: string, ms: seq<Memo>, line: Memo -> string)
    requires EndsLine(acc) && EndsLine(lacc) && KeepsEach(Split(acc, '\n'), Split(lacc, '\n'))
    requires forall i :: 0 <= i < |ms| ==> FullLine(line(ms[i]))
    ensures EndsLine(AddMemos(acc, ms, line)) && EndsLine(lacc + MemoLines(ms, line))
    ensures KeepsEach(Split(AddMemos(acc, ms, line), '\n'), Split(lacc + MemoLines(ms, line), '\n'))
  {
    if ms != [] {
      var init, x := ms[..|ms| - 1], line(ms[|ms| - 1]);
      AddMemosKept(acc, lacc, init, line);
      var o, l := AddMemos(acc, init, line), lacc + MemoLines(init, line);
      assert lacc + MemoLines(ms, line) == l + x;
      AddLineKept(o, l, x);
    } else {
      assert lacc + MemoLines(ms, line) == lacc;
    }
  }

  /** For every grouping, template and date format, the outline has as many
      lines as the uncut headings and memo lines, and each of its lines keeps
      every head of the uncut line that holds no `" ^"` and does not end in
      a space. */
  lemma {:induction false} OutlineKeepsLines(gs: seq<Group>, tpl: Composition, format: string -> string)
    ensures EndsLine(Outline(gs, tpl, format)) && EndsLine(Lines(gs, tpl, format))
    ensures KeepsEach(Split(Outline(gs, tpl, format), '\n'), Split(Lines(gs, tpl, format), '\n'))
  {
    if gs == [] {
      KeepsEachSame([""]);
    } else {
      var init, g := gs[..|gs| - 1], gs[|gs| - 1];
      OutlineKeepsLines(init, tpl, format);
      var o, l, d := Outline(init, tpl, format), Lines(init, tpl, format), DayLine(g, format);
      AppendKept(o, l, d);
      forall i | 0 <= i < |g.have|
        ensures FullLine(Line(tpl)(g.have[i]))
      {
        assert Line(tpl)(g.have[i]) == MemoLine(g.have[i], tpl);
      }
      AddMemosKept(o + d, l + d, g.have, Line(tpl));
    }
  }

  /** The first character of a clock: a digit, or the `I` of `Invalid date`. */
  lemma TimeHead(createdAt: string)
    ensures TimeOf(createdAt) != [] && (IsDigit(TimeOf(createdAt)[0]) || TimeOf(createdAt)[0] == 'I')
  {
  }

  /** A type whose mark has no line terminator takes one of four bullets. */
  lemma BulletKnown(t: MemoType)
    requires t.TaskOther? ==> NoLineTerminator(t.mark)
    ensures Bullet(t) in {"- ", "- [ ] ", "- [x] ", "- [undefined] "}
  {
    if t.TaskOther? && t.mark != "TODO" && t.mark != "DONE" {
      OtherMarkUndefined(t.mark);
    }
  }

  /** Both templates put the clock first, then a space. */
  lemma ComposeHead(tpl: Composition, time: string, content: string)
    ensures StartsWith(ComposeBody(tpl, time, content), time + " ")
  {
  }

  lemma GuardedBullet(b: string, c: char)
    requires b in {"- ", "- [ ] ", "- [x] ", "- [undefined] "}
    requires c != ' ' && c != '^'
    ensures Guarded("    " + b + [c])
  {
    var h := "    " + b + [c];
    forall j | 0 <= j < |h| - 1
      ensures !(h[j] == ' ' && h[j + 1] == '^')
    {
      if j + 1 < |h| - 1 {
        assert h[j + 1] == ("    " + b)[j + 1];
      }
    }
  }

  lemma GuardedLineHead(b: string, body: string, line: string)
    requires body != [] && Guarded("    " + b + [body[0]])
    requires line == "    " + b + body + "\n"
    ensures StartsWith(line, "    " + b) && Guarded(line[..|"    " + b| + 1])
  {
    assert line[..|"    " + b| + 1] == "    " + b + [body[0]];
  }

  /** The heads the outline keeps: a memo line's indentation, its bullet and
      the first character of its clock, whose mark has no line terminator. */
  lemma MemoLineHead(m: Memo, tpl: Composition)
    requires m.memoType.TaskOther? ==> NoLineTerminator(m.memoType.mark)
    ensures StartsWith(MemoLine(m, tpl), "    " + Bullet(m.memoType))
    ensures Guarded(MemoLine(m, tpl)[..|"    " + Bullet(m.memoType)| + 1])
  {
    var b, time := Bullet(m.memoType), TimeOf(m.createdAt);
    var body := ComposeBody(tpl, time, m.content);
    BulletKnown(m.memoType);
    TimeHead(m.createdAt);
    ComposeHead(tpl, time, m.content);
    assert body[0] == time[0];
    GuardedBullet(b, time[0]);
    GuardedLineHead(b, body, MemoLine(m, tpl));
  }

  /** ... and a heading's `- [[`. */
  lemma DayLineHead(g: Group, format: string -> string)
    ensures Guarded(DayLine(g, format)[..4]) && DayLine(g, format)[..4] == "- [["
  {
  }
}
