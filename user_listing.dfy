/** getUserListing of controllers/userController.js: parse the requested
    week numbers, select the users registered on those weekdays (the
    aggregation pipeline, here a filter over the store in store order), and
    group them under the weekday names. */
module UserListing {
  import opened Wrappers
  import opened JsValues
  import opened JsStrings
  import opened UserModel
  import opened UserController

  // ---------------------------------------------------------------------
  // weekdays
  // ---------------------------------------------------------------------

  const MsPerDay: int := 86400000

  /** MongoDB's `$dayOfWeek` of a UTC date: 1 = Sunday .. 7 = Saturday.
      1 January 1970 was a Thursday. */
  function DayOfWeek(ms: int): (d: int)
    ensures 1 <= d <= 7
  {
    ((ms / MsPerDay) + 4) % 7 + 1
  }

  /** One day later is the next weekday, wrapping from Saturday to Sunday. */
  lemma DayOfWeekNextDay(ms: int)
    ensures DayOfWeek(ms + MsPerDay) == DayOfWeek(ms) % 7 + 1
  {
    assert (ms + MsPerDay) / MsPerDay == ms / MsPerDay + 1;
  }

  /** The epoch itself is a Thursday. */
  lemma DayOfWeekEpoch()
    ensures DayOfWeek(0) == 5
  {
  }

  const Days: seq<string> :=
    ["sunday", "monday", "tuesday", "wednesday", "thursday", "friday", "saturday"]

  /** `days[i]` used as an object key: outside 0..6 the array gives
      `undefined`, which becomes the key "undefined". */
  function DayName(i: int): (r: string)
    ensures r == "undefined" <==> !(0 <= i < 7)
  {
    if 0 <= i < 7 then Days[i] else "undefined"
  }

  /** The key `days[num]` for a parsed week number; NaN gives "undefined". */
  function DayKey(n: ParsedInt): (r: string)
    ensures r == "undefined" <==> n.NaN? || !(0 <= n.value < 7)
  {
    match n
    case NaN => "undefined"
    case Int(k) => DayName(k)
  }

  // ---------------------------------------------------------------------
  // parsing and selection
  // ---------------------------------------------------------------------

  /** `weekParam.split(',').map(n => parseInt(n))`. */
  function WeekNumbers(param: string): (r: seq<ParsedInt>)
    ensures |r| == |Split(param)|
    ensures forall i :: 0 <= i < |r| ==> r[i] == ParseInt(Split(param)[i])
  {
    var pieces := Split(param);
    seq(|pieces|, i requires 0 <= i < |pieces| => ParseInt(pieces[i]))
  }

  function Decimals(ns: seq<int>): (r: seq<string>)
    ensures |r| == |ns| && forall i :: 0 <= i < |ns| ==> r[i] == Decimal(ns[i])
  {
    seq(|ns|, i requires 0 <= i < |ns| => Decimal(ns[i]))
  }

  /** A week_number written as decimal integers joined by commas is read
      back as exactly those integers. */
  lemma WeekNumbersOfDecimals(ns: seq<int>)
    requires |ns| >= 1
    ensures WeekNumbers(Join(Decimals(ns))) == seq(|ns|, i requires 0 <= i < |ns| => Int(ns[i]))
  {
    var ds := Decimals(ns);
    forall i | 0 <= i < |ds| ensures ',' !in ds[i] {
      DecimalHasNoComma(ns[i]);
    }
    SplitJoin(ds);
    forall i | 0 <= i < |ns| ensures ParseInt(ds[i]) == Int(ns[i]) {
      ParseIntDecimal(ns[i]);
    }
  }

  lemma DecimalHasNoComma(n: int)
    ensures ',' !in Decimal(n)
  {
    var m: nat := if n < 0 then -n else n;
    var digits := NatDigits(m);
    assert forall i :: 0 <= i < |digits| ==> digits[i] != ',';
    if n < 0 {
      assert Decimal(n) == "-" + digits;
    }
  }

  /** `num + 1` in JavaScript: NaN stays NaN. */
  function PlusOne(n: ParsedInt): ParsedInt {
    match n
    case NaN => NaN
    case Int(k) => Int(k + 1)
  }

  /** The list given to `$in`: `weekNumbers.map(num => num + 1)`. */
  function Targets(nums: seq<ParsedInt>): (r: seq<ParsedInt>)
    ensures |r| == |nums| && forall i :: 0 <= i < |nums| ==> r[i] == PlusOne(nums[i])
  {
    seq(|nums|, i requires 0 <= i < |nums| => PlusOne(nums[i]))
  }

  /** The `$in` test on `week_day` is the same as asking whether
      `week_day - 1` was requested. */
  lemma TargetsShift(nums: seq<ParsedInt>, weekDay: int)
    ensures Int(weekDay) in Targets(nums) <==> Int(weekDay - 1) in nums
  {
    var t := Targets(nums);
    if Int(weekDay) in t {
      var i :| 0 <= i < |t| && t[i] == Int(weekDay);
      assert nums[i] == Int(weekDay - 1);
    }
    if Int(weekDay - 1) in nums {
      var i :| 0 <= i < |nums| && nums[i] == Int(weekDay - 1);
      assert t[i] == Int(weekDay);
    }
  }

  /** A matched user as the pipeline's `$project` stage leaves it. */
  datatype Projected = Projected(name: JsValue, email: JsValue, weekDay: int)

  function Project(u: User): Projected {
    Projected(u.name, u.email, DayOfWeek(u.registerAt))
  }

  /** The aggregation: add `week_day`, keep the records whose `week_day` is
      in the target list, project. Store order is kept. */
  function Matched(users: seq<User>, nums: seq<ParsedInt>): seq<Projected> {
    if users == [] then []
    else
      var u := users[|users| - 1];
      Matched(users[..|users| - 1], nums)
        + (if Int(DayOfWeek(u.registerAt)) in Targets(nums) then [Project(u)] else [])
  }

  /** Whether user `u` was asked for: its weekday index is among the numbers. */
  predicate Requested(u: User, nums: seq<ParsedInt>) {
    Int(DayOfWeek(u.registerAt) - 1) in nums
  }

  // ---------------------------------------------------------------------
  // grouping
  // ---------------------------------------------------------------------

  /** An element of a group: `{ name: user.name, email: user.email }`. */
  datatype Entry = Entry(name: JsValue, email: JsValue)

  function ToEntry(p: Projected): Entry {
    Entry(p.name, p.email)
  }

  function UserEntry(u: User): Entry {
    Entry(u.name, u.email)
  }

  /** One key of the `grouped` object with its list. */
  datatype Group = Group(day: string, members: seq<Entry>)

  /** The keys of `grouped`, in insertion order. */
  function Keys(g: seq<Group>): (r: seq<string>)
    ensures |r| == |g| && forall i :: 0 <= i < |g| ==> r[i] == g[i].day
  {
    seq(|g|, i requires 0 <= i < |g| => g[i].day)
  }

  /** The position of key `k` in `grouped`, if it has one. */
  function FindKey(g: seq<Group>, k: string): (r: Option<nat>)
    ensures r.Some? ==> r.value < |g| && g[r.value].day == k
    ensures r.None? ==> k !in Keys(g)
  {
    if g == [] then None
    else if g[0].day == k then Some(0)
    else match FindKey(g[1..], k)
      case None => None
      case Some(i) => Some(i + 1)
  }

  predicate Distinct(s: seq<string>) {
    forall i, j :: 0 <= i < j < |s| ==> s[i] != s[j]
  }

  /** The keys a run of `grouped[k] = []` assignments creates: each key once,
      at its first assignment. */
  function Dedup(s: seq<string>): (r: seq<string>)
    ensures forall x :: x in r <==> x in s
    ensures Distinct(r)
  {
    if s == [] then []
    else
      var d := Dedup(s[..|s| - 1]);
      var x := s[|s| - 1];
      assert forall y :: y in s <==> y in s[..|s| - 1] || y == x;
      if x in d then d else d + [x]
  }

  /** The key of every requested number, in request order. */
  function KeyList(nums: seq<ParsedInt>): (r: seq<string>)
    ensures |r| == |nums| && forall i :: 0 <= i < |nums| ==> r[i] == DayKey(nums[i])
  {
    seq(|nums|, i requires 0 <= i < |nums| => DayKey(nums[i]))
  }

  /** The list of day `day` after the forEach has pushed the matched users
      `ps`, in order. */
  function Bucket(ps: seq<Projected>, day: string): seq<Entry> {
    if ps == [] then []
    else
      var p := ps[|ps| - 1];
      Bucket(ps[..|ps| - 1], day) + (if DayName(p.weekDay - 1) == day then [ToEntry(p)] else [])
  }

  /** What getUserListing answers for the requested numbers `nums`: one key
      per distinct `days[n]` in first-request order, and under each key the
      matched users of that weekday in aggregation order. */
  ghost predicate IsGrouping(g: seq<Group>, users: seq<User>, nums: seq<ParsedInt>) {
    && Keys(g) == Dedup(KeyList(nums))
    && forall k :: 0 <= k < |g| ==> g[k].members == Bucket(Matched(users, nums), g[k].day)
  }

  lemma KeysReplace(g: seq<Group>, at: nat, grp: Group)
    requires at < |g| && grp.day == g[at].day
    ensures Keys(g[at := grp]) == Keys(g)
  {
  }

  lemma KeysAppend(g: seq<Group>, grp: Group)
    ensures Keys(g + [grp]) == Keys(g) + [grp.day]
  {
  }

  lemma DedupSnoc(s: seq<string>, x: string)
    ensures Dedup(s + [x]) == if x in Dedup(s) then Dedup(s) else Dedup(s) + [x]
  {
    assert (s + [x])[..|s|] == s;
  }

  lemma KeyListSnoc(nums: seq<ParsedInt>, i: nat)
    requires i < |nums|
    ensures KeyList(nums[..i + 1]) == KeyList(nums[..i]) + [DayKey(nums[i])]
  {
  }

  /** One step of the first loop: `grouped[key] = []`, which resets an
      existing key in place and appends a new one at the end. */
  function SetEmpty(g: seq<Group>, key: string): seq<Group> {
    match FindKey(g, key)
    case Some(at) => g[at := Group(key, [])]
    case None => g + [Group(key, [])]
  }

  lemma SetEmptyStep(g: seq<Group>, nums: seq<ParsedInt>, i: nat)
    requires i < |nums|
    requires Keys(g) == Dedup(KeyList(nums[..i]))
    requires forall k :: 0 <= k < |g| ==> g[k].members == []
    ensures Keys(SetEmpty(g, DayKey(nums[i]))) == Dedup(KeyList(nums[..i + 1]))
    ensures forall k :: 0 <= k < |SetEmpty(g, DayKey(nums[i]))| ==> SetEmpty(g, DayKey(nums[i]))[k].members == []
  {
    var key := DayKey(nums[i]);
    KeyListSnoc(nums, i);
    DedupSnoc(KeyList(nums[..i]), key);
    match FindKey(g, key)
    case Some(at) =>
      KeysReplace(g, at, Group(key, []));
      assert key in Keys(g) by { assert Keys(g)[at] == key; }
    case None =>
      KeysAppend(g, Group(key, []));
  }

  /** `for (const num of weekNumbers) grouped[days[num]] = [];` starting
      from the empty object. */
  method InitKeys(nums: seq<ParsedInt>) returns (grouped: seq<Group>)
    ensures Keys(grouped) == Dedup(KeyList(nums))
    ensures forall k :: 0 <= k < |grouped| ==> grouped[k].members == []
  {
    grouped := [];
    var i := 0;
    while i < |nums|
      invariant 0 <= i <= |nums|
      invariant Keys(grouped) == Dedup(KeyList(nums[..i]))
      invariant forall k :: 0 <= k < |grouped| ==> grouped[k].members == []
    {
      SetEmptyStep(grouped, nums, i);
      grouped := SetEmpty(grouped, DayKey(nums[i]));
      i := i + 1;
    }
    assert nums[..|nums|] == nums;
  }

  /** `if (grouped[key]) grouped[key].push(x)`. A list is truthy even when
      empty, so the test only asks whether the key exists. */
  function PushKey(g: seq<Group>, key: string, x: Entry): seq<Group> {
    match FindKey(g, key)
    case None => g
    case Some(at) => g[at := Group(key, g[at].members + [x])]
  }

  /** With distinct keys, a push extends exactly the list of its key,
      whatever the lists held before. */
  lemma PushKeyStep(g: seq<Group>, key: string, x: Entry,
                    before: string -> seq<Entry>, after: string -> seq<Entry>)
    requires Distinct(Keys(g))
    requires forall k :: 0 <= k < |g| ==> g[k].members == before(g[k].day)
    requires forall d :: after(d) == before(d) + (if d == key then [x] else [])
    ensures Keys(PushKey(g, key, x)) == Keys(g)
    ensures forall k :: 0 <= k < |g| ==> PushKey(g, key, x)[k].members == after(g[k].day)
  {
    match FindKey(g, key)
    case None =>
      forall k | 0 <= k < |g| ensures g[k].members == after(g[k].day) {
        assert Keys(g)[k] == g[k].day;
      }
    case Some(at) =>
      var g' := g[at := Group(key, g[at].members + [x])];
      KeysReplace(g, at, g'[at]);
      forall k | 0 <= k < |g| ensures g'[k].members == after(g[k].day) {
        if k != at {
          assert Keys(g)[k] != Keys(g)[at];
        }
      }
  }

  /** One step of the forEach: `dayName = days[user.week_day - 1]`, then the
      push of `{ name, email }` under that key. */
  function PushOne(g: seq<Group>, p: Projected): seq<Group> {
    PushKey(g, DayName(p.weekDay - 1), ToEntry(p))
  }

  lemma BucketSnoc(ps: seq<Projected>, j: nat, day: string)
    requires j < |ps|
    ensures Bucket(ps[..j + 1], day)
         == Bucket(ps[..j], day) + (if DayName(ps[j].weekDay - 1) == day then [ToEntry(ps[j])] else [])
  {
    assert ps[..j + 1][..j] == ps[..j];
  }

  lemma PushStep(g: seq<Group>, ps: seq<Projected>, j: nat)
    requires j < |ps|
    requires Distinct(Keys(g))
    requires forall k :: 0 <= k < |g| ==> g[k].members == Bucket(ps[..j], g[k].day)
    ensures Keys(PushOne(g, ps[j])) == Keys(g)
    ensures forall k :: 0 <= k < |g| ==> PushOne(g, ps[j])[k].members == Bucket(ps[..j + 1], g[k].day)
  {
    var before := d => Bucket(ps[..j], d);
    var after := d => Bucket(ps[..j + 1], d);
    forall d ensures after(d) == before(d) + (if d == DayName(ps[j].weekDay - 1) then [ToEntry(ps[j])] else []) {
      BucketSnoc(ps, j, d);
    }
    PushKeyStep(g, DayName(ps[j].weekDay - 1), ToEntry(ps[j]), before, after);
  }

  /** `users.forEach(...)`: push each matched user onto the list of its
      weekday name when `grouped` has that key. */
  method PushMatched(start: seq<Group>, matched: seq<Projected>) returns (grouped: seq<Group>)
    requires Distinct(Keys(start))
    requires forall k :: 0 <= k < |start| ==> start[k].members == []
    ensures Keys(grouped) == Keys(start)
    ensures forall k :: 0 <= k < |grouped| ==> grouped[k].members == Bucket(matched, grouped[k].day)
  {
    grouped := start;
    var j := 0;
    while j < |matched|
      invariant 0 <= j <= |matched|
      invariant Keys(grouped) == Keys(start)
      invariant forall k :: 0 <= k < |grouped| ==> grouped[k].members == Bucket(matched[..j], grouped[k].day)
    {
      PushStep(grouped, matched, j);
      grouped := PushOne(grouped, matched[j]);
      j := j + 1;
    }
    assert matched[..|matched|] == matched;
  }

  /** getUserListing (controllers/userController.js:92-142, without the 500
      branch). `users` is the store's content in store order. */
  method GetUserListing(weekParam: Option<string>, users: seq<User>) returns (r: Response<seq<Group>>)
    ensures r.Failure? <==> weekParam.None? || weekParam == Some("")
    ensures r.Failure? ==> r == Failure(400, "week_number required")
    ensures r.Success? ==>
      r.message == "Users grouped by day" && IsGrouping(r.data, users, WeekNumbers(weekParam.value))
  {
    if !Truthy(QueryValue(weekParam)) {
      return Failure(400, "week_number required");
    }
    var nums := WeekNumbers(weekParam.value);
    var matched := Matched(users, nums);
    var grouped := InitKeys(nums);
    grouped := PushMatched(grouped, matched);
    r := Success("Users grouped by day", grouped);
  }

  // ---------------------------------------------------------------------
  // what the grouping promises
  // ---------------------------------------------------------------------

  /** The keys are exactly `days[n]` for the requested numbers, each once. */
  lemma GroupingKeys(g: seq<Group>, users: seq<User>, nums: seq<ParsedInt>)
    requires IsGrouping(g, users, nums)
    ensures forall k :: k in Keys(g) <==> exists n :: n in nums && DayKey(n) == k
    ensures Distinct(Keys(g))
  {
    forall k ensures k in Keys(g) <==> exists n :: n in nums && DayKey(n) == k {
      var kl := KeyList(nums);
      if k in kl {
        var i :| 0 <= i < |kl| && kl[i] == k;
        assert nums[i] in nums;
      }
      if exists n :: n in nums && DayKey(n) == k {
        var n :| n in nums && DayKey(n) == k;
        var i :| 0 <= i < |nums| && nums[i] == n;
        assert kl[i] == k;
      }
    }
  }

  /** The key "undefined" appears exactly when some requested number is NaN
      or outside 0..6, and its list is always empty. */
  lemma UndefinedKey(g: seq<Group>, users: seq<User>, nums: seq<ParsedInt>)
    requires IsGrouping(g, users, nums)
    ensures "undefined" in Keys(g) <==> exists n :: n in nums && !(n.Int? && 0 <= n.value < 7)
    ensures forall k :: 0 <= k < |g| && g[k].day == "undefined" ==> g[k].members == []
  {
    GroupingKeys(g, users, nums);
    MatchedWeekDays(users, nums);
    BucketUndefinedEmpty(Matched(users, nums));
  }

  lemma {:induction false} BucketUndefinedEmpty(ps: seq<Projected>)
    requires forall i :: 0 <= i < |ps| ==> 1 <= ps[i].weekDay <= 7
    ensures Bucket(ps, "undefined") == []
  {
    if ps != [] {
      BucketUndefinedEmpty(ps[..|ps| - 1]);
    }
  }

  /** Every matched user has a weekday 1..7. */
  lemma {:induction false} MatchedWeekDays(users: seq<User>, nums: seq<ParsedInt>)
    ensures forall i :: 0 <= i < |Matched(users, nums)| ==> 1 <= Matched(users, nums)[i].weekDay <= 7
  {
    if users != [] {
      MatchedWeekDays(users[..|users| - 1], nums);
    }
  }

  /** The day a user `u` is listed under, when it is listed at all. */
  function HomeDay(u: User): string {
    DayName(DayOfWeek(u.registerAt) - 1)
  }

  /** A user whose email no record shares is never listed. */
  lemma {:induction false} BucketAbsent(users: seq<User>, nums: seq<ParsedInt>, day: string, e: Entry)
    requires forall i :: 0 <= i < |users| ==> users[i].email != e.email
    ensures e !in Bucket(Matched(users, nums), day)
  {
    if users != [] {
      var prefix := users[..|users| - 1];
      assert forall j :: 0 <= j < |prefix| ==> prefix[j] == users[j];
      BucketAbsent(prefix, nums, day, e);
      BucketMatchedSnoc(users, nums, day);
      assert UserEntry(users[|users| - 1]) != e;
    }
  }

  lemma BucketMatchedSnoc(users: seq<User>, nums: seq<ParsedInt>, day: string)
    requires users != []
    ensures var u := users[|users| - 1];
      Bucket(Matched(users, nums), day)
        == Bucket(Matched(users[..|users| - 1], nums), day)
           + (if Requested(u, nums) && HomeDay(u) == day then [UserEntry(u)] else [])
  {
    var u := users[|users| - 1];
    var m := Matched(users[..|users| - 1], nums);
    var matched := Int(DayOfWeek(u.registerAt)) in Targets(nums);
    TargetsShift(nums, DayOfWeek(u.registerAt));
    assert matched == Requested(u, nums);
    if matched {
      var ps := m + [Project(u)];
      assert Matched(users, nums) == ps;
      assert ps[..|ps| - 1] == m;
      assert ps[|ps| - 1] == Project(u);
    } else {
      assert Matched(users, nums) == m;
    }
  }

  lemma CountSnoc(before: seq<Entry>, x: Entry, add: bool, e: Entry)
    ensures multiset(before + (if add then [x] else []))[e]
         == multiset(before)[e] + (if add && x == e then 1 else 0)
  {
    assert multiset(before + (if add then [x] else [])) == multiset(before) + multiset(if add then [x] else []);
  }

  /** Dropping the newest record keeps emails unique, and the newest
      record's email is on no older record. */
  lemma UniquePrefix(users: seq<User>)
    requires UniqueEmails(users) && users != []
    ensures UniqueEmails(users[..|users| - 1])
    ensures forall j :: 0 <= j < |users| - 1 ==> users[j].email != users[|users| - 1].email
  {
    var prefix := users[..|users| - 1];
    forall a, b | 0 <= a < b < |prefix| ensures prefix[a].email != prefix[b].email {
      assert prefix[a] == users[a] && prefix[b] == users[b];
    }
  }

  /** With unique emails, the list of `day` holds user i's entry once if the
      user's weekday is `day` and was requested, and otherwise not at all. */
  lemma {:induction false} BucketCount(users: seq<User>, nums: seq<ParsedInt>, day: string, i: nat)
    requires UniqueEmails(users)
    requires i < |users|
    ensures multiset(Bucket(Matched(users, nums), day))[UserEntry(users[i])]
         == if Requested(users[i], nums) && HomeDay(users[i]) == day then 1 else 0
  {
    var prefix := users[..|users| - 1];
    var u := users[|users| - 1];
    var e := UserEntry(users[i]);
    var before := Bucket(Matched(prefix, nums), day);
    BucketMatchedSnoc(users, nums, day);
    CountSnoc(before, UserEntry(u), Requested(u, nums) && HomeDay(u) == day, e);
    UniquePrefix(users);
    if i == |users| - 1 {
      assert forall j :: 0 <= j < |prefix| ==> prefix[j] == users[j];
      BucketAbsent(prefix, nums, day, e);
    } else {
      assert prefix[i] == users[i];
      BucketCount(prefix, nums, day, i);
      assert UserEntry(u) != e;
    }
  }

  /** What the handler promises for user i of a store with unique emails:
      its entry is listed exactly once, in the list `days[week_day - 1]`,
      when `week_day - 1` was requested; it appears in no other list; and
      the key of its weekday exists whenever that weekday was requested. */
  lemma ListingPlacesUser(g: seq<Group>, users: seq<User>, nums: seq<ParsedInt>, i: nat)
    requires IsGrouping(g, users, nums)
    requires UniqueEmails(users)
    requires i < |users|
    ensures Requested(users[i], nums) ==> HomeDay(users[i]) in Keys(g)
    ensures forall k :: 0 <= k < |g| ==>
      multiset(g[k].members)[UserEntry(users[i])]
        == if Requested(users[i], nums) && g[k].day == HomeDay(users[i]) then 1 else 0
  {
    if Requested(users[i], nums) {
      GroupingKeys(g, users, nums);
      assert DayKey(Int(DayOfWeek(users[i].registerAt) - 1)) == HomeDay(users[i]);
    }
    forall k | 0 <= k < |g|
      ensures multiset(g[k].members)[UserEntry(users[i])]
        == if Requested(users[i], nums) && g[k].day == HomeDay(users[i]) then 1 else 0
    {
      BucketCount(users, nums, g[k].day, i);
    }
  }

}
