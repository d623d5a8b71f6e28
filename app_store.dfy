/**
 * The application's UI store: sidebar, theme, global loading flag and the
 * notification list, with the slice of it kept across reloads. The clock and
 * the random part of a notification id are parameters, and so is the system's
 * dark-mode preference that the `system` theme follows.
 */
module AppStore {
  import opened Common
  import opened Text

  datatype Theme = Light | Dark | System

  datatype Level = Info | Success | Warning | Error

  datatype Notification = Notification(
    id: string,
    message: string,
    level: Level,
    duration: int,
    createdAt: int)

  const DefaultLevel := Info
  const DefaultDuration := 5000

  /** What is written to local storage: the theme and the sidebar state, nothing else. */
  datatype Persisted = Persisted(theme: Theme, isSidebarOpen: bool)

  /** `notifications.filter((n) => n.id !== id)`. */
  function FilterOut(ns: seq<Notification>, id: string): (r: seq<Notification>)
    ensures |r| <= |ns|
    ensures forall n :: n in r <==> n in ns && n.id != id
  {
    if ns == [] then []
    else if ns[0].id != id then [ns[0]] + FilterOut(ns[1..], id)
    else FilterOut(ns[1..], id)
  }

  /** Filtering distributes over concatenation: the kept entries stay in their order. */
  lemma {:induction false} FilterOutAppend(a: seq<Notification>, b: seq<Notification>, id: string)
    ensures FilterOut(a + b, id) == FilterOut(a, id) + FilterOut(b, id)
  {
    if a == [] {
      assert a + b == b;
    } else {
      assert (a + b)[1..] == a[1..] + b;
      FilterOutAppend(a[1..], b, id);
    }
  }

  /** Removing an id no entry carries changes nothing. */
  lemma {:induction false} FilterOutAbsent(ns: seq<Notification>, id: string)
    requires forall i :: 0 <= i < |ns| ==> ns[i].id != id
    ensures FilterOut(ns, id) == ns
  {
    if ns != [] {
      FilterOutAbsent(ns[1..], id);
      assert [ns[0]] + ns[1..] == ns;
    }
  }

  /** Removing twice is removing once. */
  lemma FilterOutIdempotent(ns: seq<Notification>, id: string)
    ensures FilterOut(FilterOut(ns, id), id) == FilterOut(ns, id)
  {
    var r := FilterOut(ns, id);
    forall i | 0 <= i < |r| ensures r[i].id != id {
      assert r[i] in r;
    }
    FilterOutAbsent(r, id);
  }

  /** Adding a notification under a fresh id and then removing that id restores the list. */
  lemma AddThenRemove(ns: seq<Notification>, n: Notification)
    requires forall i :: 0 <= i < |ns| ==> ns[i].id != n.id
    ensures FilterOut(ns + [n], n.id) == ns
  {
    FilterOutAppend(ns, [n], n.id);
    FilterOutAbsent(ns, n.id);
    assert FilterOut([n], n.id) == [];
    assert ns + [] == ns;
  }

  /** `${Date.now()}-${Math.random()}`, with the clock reading and the random text given. */
  function NotificationId(now: int, random: string): (id: string)
    ensures id == IntToString(now) + "-" + random
    ensures |id| >= 2 && id[|IntToString(now)|] == '-'
  {
    IntToString(now) + "-" + random
  }

  /** The dark class the document root carries after a theme is applied. */
  function DarkClass(theme: Theme, prefersDark: bool): bool {
    match theme
    case Dark => true
    case Light => false
    case System => prefersDark
  }

  class Store {
    var isSidebarOpen: bool
    var theme: Theme
    var isGlobalLoading: bool
    var notifications: seq<Notification>
    /** Whether `document.documentElement` carries the `dark` class. */
    var darkClass: bool

    /** The initial state: sidebar open, system theme, not loading, no notifications. */
    predicate IsInitial()
      reads this
    {
      isSidebarOpen && theme == System && !isGlobalLoading && notifications == []
    }

    constructor ()
      ensures IsInitial() && !darkClass
    {
      isSidebarOpen, theme, isGlobalLoading, notifications := true, System, false, [];
      darkClass := false;
    }

    /** A store reloaded from local storage: the initial state merged with the persisted slice. */
    constructor Rehydrated(p: Persisted)
      ensures theme == p.theme && isSidebarOpen == p.isSidebarOpen
      ensures !isGlobalLoading && notifications == [] && !darkClass
    {
      isSidebarOpen, theme, isGlobalLoading, notifications := p.isSidebarOpen, p.theme, false, [];
      darkClass := false;
    }

    method ToggleSidebar()
      modifies this
      ensures isSidebarOpen == !old(isSidebarOpen)
      ensures theme == old(theme) && isGlobalLoading == old(isGlobalLoading)
      ensures notifications == old(notifications) && darkClass == old(darkClass)
    {
      isSidebarOpen := !isSidebarOpen;
    }

    method SetSidebarOpen(isOpen: bool)
      modifies this
      ensures isSidebarOpen == isOpen
      ensures theme == old(theme) && isGlobalLoading == old(isGlobalLoading)
      ensures notifications == old(notifications) && darkClass == old(darkClass)
    {
      isSidebarOpen := isOpen;
    }

    /** Records the theme and applies it to the document root; `prefersDark` is the media query's answer. */
    method SetTheme(t: Theme, prefersDark: bool)
      modifies this
      ensures theme == t && darkClass == DarkClass(t, prefersDark)
      ensures isSidebarOpen == old(isSidebarOpen) && isGlobalLoading == old(isGlobalLoading)
      ensures notifications == old(notifications)
    {
      theme := t;
      if t == Dark {
        darkClass := true;
      } else if t == Light {
        darkClass := false;
      } else {
        darkClass := prefersDark;
      }
    }

    method SetGlobalLoading(isLoading: bool)
      modifies this
      ensures isGlobalLoading == isLoading
      ensures isSidebarOpen == old(isSidebarOpen) && theme == old(theme)
      ensures notifications == old(notifications) && darkClass == old(darkClass)
    {
      isGlobalLoading := isLoading;
    }

    /**
     * Appends one notification; an omitted level is `info` and an omitted
     * duration 5000 ms. The clock is read twice, `idClock` for the id and
     * `now` for `createdAt`; `random` is the text of `Math.random()`. A
     * positive duration schedules the notification's removal: `expiry` is
     * the time the timer fires.
     */
    method AddNotification(
      message: string, level: Option<Level>, duration: Option<int>,
      idClock: int, now: int, random: string)
      returns (added: Notification, expiry: Option<int>)
      modifies this
      ensures added == Notification(NotificationId(idClock, random), message, level.GetOr(DefaultLevel), duration.GetOr(DefaultDuration), now)
      ensures expiry.Some? <==> added.duration > 0
      ensures expiry.Some? ==> expiry.value == now + added.duration
      ensures notifications == old(notifications) + [added]
      ensures isSidebarOpen == old(isSidebarOpen) && theme == old(theme)
      ensures isGlobalLoading == old(isGlobalLoading) && darkClass == old(darkClass)
    {
      added := Notification(NotificationId(idClock, random), message, level.GetOr(DefaultLevel), duration.GetOr(DefaultDuration), now);
      notifications := notifications + [added];
      expiry := if added.duration > 0 then Some(now + added.duration) else None;
    }

    method RemoveNotification(id: string)
      modifies this
      ensures notifications == FilterOut(old(notifications), id)
      ensures isSidebarOpen == old(isSidebarOpen) && theme == old(theme)
      ensures isGlobalLoading == old(isGlobalLoading) && darkClass == old(darkClass)
    {
      notifications := FilterOut(notifications, id);
    }

    method ClearNotifications()
      modifies this
      ensures notifications == []
      ensures isSidebarOpen == old(isSidebarOpen) && theme == old(theme)
      ensures isGlobalLoading == old(isGlobalLoading) && darkClass == old(darkClass)
    {
      notifications := [];
    }

    /** Back to the initial state; the document root is left as it is. */
    method Reset()
      modifies this
      ensures IsInitial() && darkClass == old(darkClass)
    {
      isSidebarOpen, theme, isGlobalLoading, notifications := true, System, false, [];
    }

    /** `partialize`: the slice written to local storage. */
    function Partialize(): (p: Persisted)
      reads this
      ensures p.theme == theme && p.isSidebarOpen == isSidebarOpen
    {
      Persisted(theme, isSidebarOpen)
    }
  }

  /** Toggling the sidebar twice leaves it as it was. */
  method ToggleTwice(s: Store)
    modifies s
    ensures s.isSidebarOpen == old(s.isSidebarOpen)
    ensures s.notifications == old(s.notifications) && s.theme == old(s.theme)
  {
    s.ToggleSidebar();
    s.ToggleSidebar();
  }

  /** Reloading from the persisted slice gives back the same slice, and nothing else survives. */
  method ReloadKeepsPersisted(s: Store) returns (reloaded: Store)
    ensures reloaded.Partialize() == s.Partialize()
    ensures reloaded.notifications == [] && !reloaded.isGlobalLoading
  {
    reloaded := new Store.Rehydrated(s.Partialize());
  }

  /** An auto-removal that fires after the user removed the notification already changes nothing. */
  method RemoveTwice(s: Store, id: string)
    modifies s
    ensures s.notifications == FilterOut(old(s.notifications), id)
  {
    s.RemoveNotification(id);
    s.RemoveNotification(id);
    FilterOutIdempotent(old(s.notifications), id);
  }
}
