/** The browser notification service: the permission decision, the guarded
    dispatch and the once-a-day gate over the persisted `lastNotificationDate`.
    The browser (its `Notification` support and permission, `localStorage`, the
    notifications shown) is the class `Browser`; the clock is two inputs, the
    current ISO timestamp and the hour in Europe/Istanbul. */
module NotificationService {
  import opened Wrappers
  import JsStrings

  /** `Notification.permission`. */
  datatype Permission = Default | Granted | Denied

  /** The options passed to `new Notification(title, options)`. */
  datatype Notice = Notice(title: string, body: string, icon: string, vibrate: seq<nat>, tag: string)

  const LastNotificationDateKey := "lastNotificationDate"
  /** The gate opens at 11:00 Istanbul time. */
  const TargetHour := 11
  const Icon := "/logo.png"
  const Vibrate: seq<nat> := [200, 100, 200]
  const Tag := "daily-news"
  const DailyTitle := "bahaA\U{130} G\U{FC}nl\U{FC}k B\U{FC}lten Haz\U{131}r! \U{1F916}"
  const DailyBody := "Yapay zeka d\U{FC}nyas\U{131}ndaki son geli\U{15F}meleri okumak i\U{E7}in dokunun."

  function MakeNotice(title: string, body: string): Notice {
    Notice(title, body, Icon, Vibrate, Tag)
  }

  // ---------------------------------------------------------------------------
  // Permission decision

  /** Whether the user is asked, and whether the call resolves to true. */
  datatype PermissionDecision = PermissionDecision(prompted: bool, granted: bool)

  /** `requestNotificationPermission`: no support is false; an existing grant is
      true without asking; a denial is false without asking; otherwise the
      user's `answer` to the prompt decides. */
  function Decide(supported: bool, current: Permission, answer: Permission): (d: PermissionDecision)
    ensures d.prompted <==> supported && current == Default
    ensures d.granted <==> supported && (current == Granted || (d.prompted && answer == Granted))
    ensures !supported ==> !d.granted
  {
    if !supported then PermissionDecision(false, false)
    else if current == Granted then PermissionDecision(false, true)
    else if current != Denied then PermissionDecision(true, answer == Granted)
    else PermissionDecision(false, false)
  }

  // ---------------------------------------------------------------------------
  // The daily gate, as a function of the stored value

  /** What one call of the gate does. */
  datatype Outcome = AlreadySent | TooEarly | Fired

  /** `localStorage.getItem('lastNotificationDate')`: `null` is `None`. */
  function StoredDate(store: map<string, string>): (r: Option<string>)
    ensures r.Some? <==> LastNotificationDateKey in store
    ensures r.Some? ==> r.value == store[LastNotificationDateKey]
  {
    if LastNotificationDateKey in store then Some(store[LastNotificationDateKey]) else None
  }

  /** `now.toISOString().split('T')[0]`: the UTC calendar date, which is the
      longest prefix of the timestamp without a `T`. */
  function Today(nowIso: string): (r: string)
    ensures 'T' !in r
    ensures |r| <= |nowIso| && nowIso[..|r|] == r
    ensures |r| < |nowIso| ==> nowIso[|r|] == 'T'
  {
    JsStrings.Split(nowIso, 'T')[0]
  }

  /** A stored date equal to today stops the gate; otherwise it fires from 11:00 on. */
  function Gate(last: Option<string>, today: string, hour: int): (o: Outcome)
    ensures o == AlreadySent <==> last == Some(today)
    ensures o == TooEarly <==> last != Some(today) && hour < TargetHour
    ensures o == Fired <==> last != Some(today) && hour >= TargetHour
  {
    if last == Some(today) then AlreadySent
    else if hour >= TargetHour then Fired
    else TooEarly
  }

  /** The store after one call. When `Notification` is missing, `sendNotification`
      throws before the date is written. */
  function Tick(store: map<string, string>, today: string, hour: int, supported: bool): (r: map<string, string>)
    ensures forall k :: k != LastNotificationDateKey ==> (k in r <==> k in store)
    ensures forall k :: k in store && k != LastNotificationDateKey ==> r[k] == store[k]
    ensures StoredDate(r) == StoredDate(store) || StoredDate(r) == Some(today)
    ensures r != store ==> Gate(StoredDate(store), today, hour) == Fired && supported
    ensures Gate(StoredDate(store), today, hour) == Fired && supported ==> r == store[LastNotificationDateKey := today]
  {
    if Gate(StoredDate(store), today, hour) == Fired && supported then
      store[LastNotificationDateKey := today]
    else
      store
  }

  /** The gate called once per hour in `hours` on the same day: the final store and
      the number of dispatch attempts. */
  function Run(store: map<string, string>, today: string, hours: seq<int>, supported: bool): (r: (map<string, string>, nat))
    ensures r.1 <= |hours|
    ensures r.0 == store || r.0 == store[LastNotificationDateKey := today]
    decreases |hours|
  {
    if hours == [] then (store, 0)
    else
      var fired := Gate(StoredDate(store), today, hours[0]) == Fired;
      var rest := Run(Tick(store, today, hours[0], supported), today, hours[1..], supported);
      (rest.0, rest.1 + if fired then 1 else 0)
  }

  /** Once today's date is stored, no later call that day dispatches or writes. */
  lemma {:induction false} RunAfterSent(store: map<string, string>, today: string, hours: seq<int>, supported: bool)
    requires StoredDate(store) == Some(today)
    ensures Run(store, today, hours, supported) == (store, 0)
    decreases |hours|
  {
    if hours != [] {
      RunAfterSent(store, today, hours[1..], supported);
    }
  }

  /** Before 11:00 the gate neither dispatches nor writes, whatever is stored. */
  lemma {:induction false} RunBeforeEleven(store: map<string, string>, today: string, hours: seq<int>, supported: bool)
    requires forall i :: 0 <= i < |hours| ==> hours[i] < TargetHour
    ensures Run(store, today, hours, supported) == (store, 0)
    decreases |hours|
  {
    if hours != [] {
      RunBeforeEleven(store, today, hours[1..], supported);
    }
  }

  /** Over one day, with `Notification` available: at most one dispatch; exactly
      one when the stored date is not today and some call comes at 11:00 or later;
      and then the store holds today's date, with nothing else changed. */
  lemma {:induction false} RunOncePerDay(store: map<string, string>, today: string, hours: seq<int>)
    ensures var (after, sent) := Run(store, today, hours, true);
      && sent <= 1
      && (sent == 1 <==> StoredDate(store) != Some(today) && exists i :: 0 <= i < |hours| && hours[i] >= TargetHour)
      && after == (if sent == 1 then store[LastNotificationDateKey := today] else store)
    decreases |hours|
  {
    if hours != [] {
      var next := Tick(store, today, hours[0], true);
      if Gate(StoredDate(store), today, hours[0]) == Fired {
        RunAfterSent(next, today, hours[1..], true);
      } else {
        RunOncePerDay(store, today, hours[1..]);
        forall i | 0 <= i < |hours[1..]| ensures hours[1..][i] == hours[i + 1] { }
        if StoredDate(store) != Some(today) {
          assert hours[0] < TargetHour;
          assert (exists i :: 0 <= i < |hours| && hours[i] >= TargetHour)
            <==> exists i :: 0 <= i < |hours[1..]| && hours[1..][i] >= TargetHour;
        }
      }
    }
  }

  /** How many of `hours` are at or after 11:00. */
  function LateCalls(hours: seq<int>): nat {
    if hours == [] then 0 else LateCalls(hours[1..]) + if hours[0] >= TargetHour then 1 else 0
  }

  /** Without `Notification`, every call from 11:00 on throws before the write,
      so the store never changes and the attempt repeats on each late call. */
  lemma {:induction false} RunUnsupported(store: map<string, string>, today: string, hours: seq<int>)
    requires StoredDate(store) != Some(today)
    ensures Run(store, today, hours, false) == (store, LateCalls(hours))
    decreases |hours|
  {
    if hours != [] {
      RunUnsupported(store, today, hours[1..]);
    }
  }

  // ---------------------------------------------------------------------------
  // The browser

  /** The parts of the browser the service reads and changes. */
  class Browser {
    /** `'Notification' in window`. */
    const notificationSupported: bool
    var permission: Permission
    /** `localStorage`. */
    var storage: map<string, string>
    /** Every notification constructed, in order. */
    var shown: seq<Notice>
    /** How often the user was asked for permission. */
    var prompts: nat

    constructor (supported: bool, permission: Permission, storage: map<string, string>)
      ensures notificationSupported == supported && this.permission == permission
      ensures this.storage == storage && shown == [] && prompts == 0
    {
      notificationSupported := supported;
      this.permission := permission;
      this.storage := storage;
      shown := [];
      prompts := 0;
    }

    /** `requestNotificationPermission`; `answer` is what the prompt resolves to,
        which also becomes the browser's permission. */
    method RequestNotificationPermission(answer: Permission) returns (granted: bool)
      modifies this`permission, this`prompts
      ensures var d := Decide(notificationSupported, old(permission), answer);
        && granted == d.granted
        && prompts == old(prompts) + (if d.prompted then 1 else 0)
        && permission == (if d.prompted then answer else old(permission))
      ensures granted ==> permission == Granted
    {
      if !notificationSupported {
        return false;
      }
      if permission == Granted {
        return true;
      }
      if permission != Denied {
        permission := answer;
        prompts := prompts + 1;
        return answer == Granted;
      }
      return false;
    }

    /** `sendNotification`: a notification is built only under a grant. The
        permission is read without a support check, so without `Notification`
        the call throws. The constructor itself is taken not to throw. */
    method SendNotification(title: string, body: string) returns (thrown: bool)
      modifies this`shown
      ensures thrown <==> !notificationSupported
      ensures shown == if notificationSupported && permission == Granted
        then old(shown) + [MakeNotice(title, body)] else old(shown)
    {
      if !notificationSupported {
        return true;
      }
      thrown := false;
      if permission == Granted {
        shown := shown + [MakeNotice(title, body)];
      }
    }

    /** `checkAndTriggerScheduledNotification`, called at `nowIso` when the hour
        in Istanbul is `istanbulHour`. A throw from the dispatch is passed on. */
    method CheckAndTriggerScheduledNotification(nowIso: string, istanbulHour: int) returns (thrown: bool)
      modifies this`storage, this`shown
      ensures var o := Gate(StoredDate(old(storage)), Today(nowIso), istanbulHour);
        && storage == Tick(old(storage), Today(nowIso), istanbulHour, notificationSupported)
        && (thrown <==> o == Fired && !notificationSupported)
        && shown == old(shown) + (if o == Fired && notificationSupported && permission == Granted
                                  then [MakeNotice(DailyTitle, DailyBody)] else [])
    {
      var todayStr := JsStrings.Split(nowIso, 'T')[0];
      var lastSentDate := if LastNotificationDateKey in storage then Some(storage[LastNotificationDateKey]) else None;
      if lastSentDate == Some(todayStr) {
        return false;
      }
      thrown := false;
      if istanbulHour >= TargetHour {
        thrown := SendNotification(DailyTitle, DailyBody);
        if thrown {
          return;
        }
        storage := storage[LastNotificationDateKey := todayStr];
      }
    }
  }
}
