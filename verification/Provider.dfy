/** Stored messages: ranges, paging back through a history, and replacement. */
module Provider {
  import opened Bytes

  datatype Message = Message(id: string, sender: string, body: string)

  datatype Range = Latest(limit: nat) | Before(id: string, limit: nat) | After(id: string, limit: nat)

  /** The first position holding an id, if any. */
  function Position(ms: seq<Message>, id: string): (p: Option<nat>)
    ensures p.Some? ==> p.value < |ms| && ms[p.value].id == id && forall i :: 0 <= i < p.value ==> ms[i].id != id
    ensures p.None? ==> forall i :: 0 <= i < |ms| ==> ms[i].id != id
  {
    if ms == [] then None
    else if ms[0].id == id then Some(0)
    else match Position(ms[1..], id) case None => None case Some(p) => Some(p + 1)
  }

  function ApplyRange(ms: seq<Message>, r: Range): (page: seq<Message>)
  {
    match r
    case Latest(limit) => ms[Saturating(|ms|, limit)..]
    case Before(id, limit) =>
      (match Position(ms, id)
       case None => []
       case Some(p) => ms[Saturating(p, limit)..p])
    case After(id, limit) =>
      match Position(ms, id)
      case None => []
      case Some(p) => ms[p + 1..Min(p + 1 + limit, |ms|)]
  }

  // -- Paging back ---------------------------------------------------------------------------

  datatype Fetch = Fetch(page: seq<Message>, collected: seq<Message>)

  /** The latest page, then n times the page before the first message of the last one. */
  function Fetched(ms: seq<Message>, limit: nat, n: nat): (f: Fetch)
  {
    if n == 0 then
      var page := ApplyRange(ms, Latest(limit));
      Fetch(page, page)
    else
      var f := Fetched(ms, limit, n - 1);
      if f.page == [] then f
      else
        var page := ApplyRange(ms, Before(f.page[0].id, limit));
        Fetch(page, page + f.collected)
  }

  /** Where the collected part should start after n further fetches. */
  function Reached(size: nat, limit: nat, n: nat): (start: nat) {
    Saturating(if n == 0 then size else Reached(size, limit, n - 1), limit)
  }

  /** The message at `start` is the first with its id. */
  predicate IsFirst(ms: seq<Message>, start: nat) {
    start < |ms| && Position(ms, ms[start].id) == Some(start)
  }

  /** Every message the first n fetches take as their cursor is the first with its id. */
  predicate CursorsFirst(ms: seq<Message>, limit: nat, n: nat) {
    forall k: nat :: k < n && Reached(|ms|, limit, k) > 0 ==> IsFirst(ms, Reached(|ms|, limit, k))
  }

  /** Around any message, the page before it, the message, and the page after it are one
      contiguous stretch of the history. */
  lemma WindowAround(ms: seq<Message>, i: nat, limit: nat)
    requires IsFirst(ms, i)
    ensures ApplyRange(ms, Before(ms[i].id, limit)) + [ms[i]] + ApplyRange(ms, After(ms[i].id, limit)) ==
            ms[Saturating(i, limit)..Min(i + 1 + limit, |ms|)]
  {
    hide Position;
    var a, b := Saturating(i, limit), Min(i + 1 + limit, |ms|);
    assert ms[a..b] == ms[a..i] + [ms[i]] + ms[i + 1..b];
  }

  /** Where the walk's oldest message stands after n further fetches. */
  function Cursor(ms: seq<Message>, limit: nat, n: nat): (q: nat)
    requires ms != [] && limit >= 1
    ensures q < |ms|
  {
    Saturating(if n == 0 then |ms| else Position(ms, ms[Cursor(ms, limit, n - 1)].id).value, limit)
  }

  /** The last page starts at the cursor `q`, or is empty at the front. As long as every
      cursor was the first with its id, the cursor is where it should be and exactly the
      history from it on is collected; from then on too few messages are left. */
  predicate Walking(ms: seq<Message>, f: Fetch, q: nat, whole: bool, start: nat) {
    && q < |ms| && (if f.page == [] then q == 0 else f.page[0] == ms[q])
    && (if whole then q == start && f.collected == ms[q..] && f.page <= f.collected
        else |f.collected| + q < |ms|)
  }

  lemma WalkStep(ms: seq<Message>, limit: nat, f: Fetch, q: nat, whole: bool, start: nat)
    requires limit >= 1 && f.page != [] && Walking(ms, f, q, whole, start)
    ensures var p, page := Position(ms, ms[q].id).value, ApplyRange(ms, Before(f.page[0].id, limit));
            && p <= q
            && Walking(ms, Fetch(page, page + f.collected), Saturating(p, limit),
                       whole && (start > 0 ==> IsFirst(ms, start)), Saturating(start, limit))
  {
    hide Position;
    var p := Position(ms, ms[q].id).value;
    var next := Saturating(p, limit);
    assert ApplyRange(ms, Before(f.page[0].id, limit)) == ms[next..p];
    if whole {
      assert ms[next..q] + ms[q..] == ms[next..];
      assert p < q ==> start > 0 && !IsFirst(ms, start);
    }
  }

  lemma FrontIsFirst(ms: seq<Message>)
    requires ms != []
    ensures Position(ms, ms[0].id) == Some(0)
  {
  }

  lemma NextCursor(ms: seq<Message>, limit: nat, n: nat)
    ensures CursorsFirst(ms, limit, n + 1) <==>
            CursorsFirst(ms, limit, n) && (Reached(|ms|, limit, n) > 0 ==> IsFirst(ms, Reached(|ms|, limit, n)))
  {
    hide IsFirst;
  }

  lemma WalkStarts(ms: seq<Message>, limit: nat)
    requires ms != [] && limit >= 1
    ensures Walking(ms, Fetched(ms, limit, 0), Saturating(|ms|, limit), true, Saturating(|ms|, limit))
  {
    hide Position, IsFirst;
  }

  /** An empty page is the end: nothing changes any more. */
  lemma WalkStays(ms: seq<Message>, limit: nat, f: Fetch, q: nat, whole: bool, start: nat)
    requires f.page == [] && Walking(ms, f, q, whole, start)
    ensures Position(ms, ms[q].id) == Some(0) && q == 0 && (whole ==> start == 0)
    ensures Walking(ms, f, 0, whole && (start > 0 ==> IsFirst(ms, start)), Saturating(start, limit))
  {
    FrontIsFirst(ms);
  }

  lemma {:induction false} Walks(ms: seq<Message>, limit: nat, n: nat)
    requires ms != [] && limit >= 1
    ensures Walking(ms, Fetched(ms, limit, n), Cursor(ms, limit, n),
                    CursorsFirst(ms, limit, n), Reached(|ms|, limit, n))
    ensures Cursor(ms, limit, n) <= Saturating(|ms|, n + 1)
  {
    hide Position, IsFirst, ApplyRange, Walking;
    if n == 0 {
      WalkStarts(ms, limit);
    } else {
      hide CursorsFirst;
      Walks(ms, limit, n - 1);
      NextCursor(ms, limit, n - 1);
      var f, q := Fetched(ms, limit, n - 1), Cursor(ms, limit, n - 1);
      var whole, start := CursorsFirst(ms, limit, n - 1), Reached(|ms|, limit, n - 1);
      if f.page != [] {
        WalkStep(ms, limit, f, q, whole, start);
      } else {
        WalkStays(ms, limit, f, q, whole, start);
      }
    }
  }

  lemma EmptyPages(ms: seq<Message>, n: nat)
    ensures Fetched(ms, 0, n) == Fetch([], [])
  {
  }

  lemma {:induction false} NothingToFetch(limit: nat, n: nat)
    ensures Fetched([], limit, n) == Fetch([], []) && Reached(0, limit, n) == 0
  {
    if n > 0 { NothingToFetch(limit, n - 1); }
  }

  /** For every history and page size the walk ends: after as many fetches as there are
      messages the page is empty. It has then collected the whole history, in order, each
      message once, if and only if every cursor was the first message with its id; if one
      was not, messages are missing. */
  lemma WalkCollectsAllIff(ms: seq<Message>, limit: nat, n: nat)
    requires n >= |ms|
    ensures var f := Fetched(ms, limit, n);
            && f.page == [] && |f.collected| <= |ms|
            && (f.collected == ms <==> CursorsFirst(ms, limit, n))
            && (f.collected == ms <==> |f.collected| == |ms|)
  {
    hide Position, ApplyRange;
    if ms == [] {
      forall k: nat ensures Reached(0, limit, k) == 0 { NothingToFetch(limit, k); }
      NothingToFetch(limit, n);
    } else if limit == 0 {
      EmptyPages(ms, n);
      assert !IsFirst(ms, Reached(|ms|, 0, 0));
    } else {
      Walks(ms, limit, n);
      Walks(ms, limit, n - 1);
      if Fetched(ms, limit, n - 1).page != [] { FrontHasNoPage(ms, limit); }
    }
  }

  lemma FrontHasNoPage(ms: seq<Message>, limit: nat)
    requires ms != []
    ensures ApplyRange(ms, Before(ms[0].id, limit)) == []
  {
  }

  /** As long as every cursor is the first with its id, exactly a suffix of the history is
      collected, each message once and in order, and the last page is its front. */
  lemma WalkCollectsSuffix(ms: seq<Message>, limit: nat, n: nat)
    requires limit >= 1 && CursorsFirst(ms, limit, n)
    ensures var f, start := Fetched(ms, limit, n), Reached(|ms|, limit, n);
            start <= |ms| && f.collected == ms[start..] && f.page <= f.collected && (f.page == [] ==> start == 0)
  {
    hide Position, ApplyRange, CursorsFirst;
    if ms == [] { NothingToFetch(limit, n); } else { Walks(ms, limit, n); }
  }

  predicate UniqueIds(ms: seq<Message>) {
    forall i, j :: 0 <= i < j < |ms| ==> ms[i].id != ms[j].id
  }

  lemma UniqueIsFirst(ms: seq<Message>, start: nat)
    requires UniqueIds(ms) && start < |ms|
    ensures IsFirst(ms, start)
  {
  }

  lemma {:induction false} ReachedIsInside(size: nat, limit: nat, n: nat)
    requires limit >= 1
    ensures Reached(size, limit, n) <= Saturating(size, 1)
  {
    if n > 0 { ReachedIsInside(size, limit, n - 1); }
  }

  /** So with unique ids every walk with a positive page size collects everything. */
  lemma WalkCollectsAll(ms: seq<Message>, limit: nat, n: nat)
    requires UniqueIds(ms) && limit >= 1 && n >= |ms|
    ensures Fetched(ms, limit, n).collected == ms && Fetched(ms, limit, n).page == []
  {
    hide UniqueIds, IsFirst, Reached;
    forall k: nat | k < n && Reached(|ms|, limit, k) > 0 ensures IsFirst(ms, Reached(|ms|, limit, k)) {
      ReachedIsInside(|ms|, limit, k);
      UniqueIsFirst(ms, Reached(|ms|, limit, k));
    }
    WalkCollectsAllIff(ms, limit, n);
  }

  /** A cursor that repeats an older message's id loses messages for good: however many
      pages are fetched from then on, the history is never complete. */
  lemma RepeatedIdMissesMessages(ms: seq<Message>, limit: nat, n: nat, i: nat, k: nat)
    requires limit >= 1 && k < n && i < Reached(|ms|, limit, k) < |ms|
    requires ms[i].id == ms[Reached(|ms|, limit, k)].id
    ensures |Fetched(ms, limit, n).collected| < |ms|
  {
    hide Reached, ApplyRange;
    assert !IsFirst(ms, Reached(|ms|, limit, k));
    Walks(ms, limit, n);
  }

  // -- Replacement ----------------------------------------------------------------------------

  predicate Matches(m: Message, id: string, sender: string) { m.id == id && m.sender == sender }

  predicate IsFirstMatch(ms: seq<Message>, id: string, sender: string, k: nat) {
    && k < |ms| && ms[k].id == id && ms[k].sender == sender
    && forall i :: 0 <= i < k ==> !(ms[i].id == id && ms[i].sender == sender)
  }

  /** The first message with that id by that sender. */
  function FindReplaced(ms: seq<Message>, id: string, sender: string): (p: Option<nat>)
    ensures p.Some? ==> p.value < |ms| && IsFirstMatch(ms, id, sender, p.value)
    ensures p.None? ==> forall i :: 0 <= i < |ms| ==> !Matches(ms[i], id, sender)
  {
    if ms == [] then None
    else if Matches(ms[0], id, sender) then Some(0)
    else match FindReplaced(ms[1..], id, sender) case None => None case Some(p) => Some(p + 1)
  }

  type Store = map<nat, seq<Message>>

  function Get(s: Store, channel: nat): (ms: seq<Message>) { if channel in s then s[channel] else [] }

  function Appended(s: Store, channel: nat, m: Message): (t: Store) { s[channel := Get(s, channel) + [m]] }

  /** One store's replacement: nothing, or one message of the channel swapped in place. */
  function ReplaceIn(s: Store, channel: nat, id: string, r: Message): (t: Store)
  {
    var p := FindReplaced(Get(s, channel), id, r.sender);
    if p.None? then s else s[channel := s[channel][p.value := r]]
  }

  predicate Has(s: Store, channel: nat, id: string, sender: string) {
    FindReplaced(Get(s, channel), id, sender).Some?
  }

  /** Volatile store first, persistent store only when it had no match. */
  class CompositeProvider {
    var volatile: Store
    var persistent: Store
    var fullArchive: set<nat>

    method ReplaceMessage(channel: nat, id: string, r: Message) returns (found: bool)
      modifies this
      ensures found <==> old(Has(volatile, channel, id, r.sender) || Has(persistent, channel, id, r.sender))
      ensures volatile == ReplaceIn(old(volatile), channel, id, r)
      ensures persistent == if old(Has(volatile, channel, id, r.sender)) then old(persistent)
                            else ReplaceIn(old(persistent), channel, id, r)
      ensures fullArchive == old(fullArchive)
    {
      var p := FindReplaced(Get(volatile, channel), id, r.sender);
      if p.Some? {
        volatile := volatile[channel := volatile[channel][p.value := r]];
        return true;
      }
      var q := FindReplaced(Get(persistent, channel), id, r.sender);
      if q.Some? {
        persistent := persistent[channel := persistent[channel][q.value := r]];
        return true;
      }
      found := false;
    }

    method StoreMessage(channel: nat, m: Message)
      modifies this
      ensures var archived := channel in old(fullArchive);
              && volatile == (if archived then old(volatile) else Appended(old(volatile), channel, m))
              && persistent == (if archived then Appended(old(persistent), channel, m) else old(persistent))
      ensures fullArchive == old(fullArchive)
    {
      if channel in fullArchive {
        persistent := Appended(persistent, channel, m);
      } else {
        volatile := Appended(volatile, channel, m);
      }
    }
  }

  /** A place in the two stores together. */
  datatype Place = Place(archived: bool, channel: nat, index: nat)

  function At(v: Store, p: Store, at: Place): (m: Option<Message>)
  {
    var ms := Get(if at.archived then p else v, at.channel);
    if at.index < |ms| then Some(ms[at.index]) else None
  }

  /** Storing puts the message at the end of its channel's history, as its latest, in the
      store chosen, and changes no other place of it. */
  lemma StoresAtEnd(s: Store, channel: nat, m: Message, at: nat, index: nat)
    ensures var t := Appended(s, channel, m);
            && channel in t && |t[channel]| == |Get(s, channel)| + 1
            && ApplyRange(t[channel], Latest(1)) == [m]
            && At(t, t, Place(false, at, index)) ==
               if at == channel && index == |Get(s, channel)| then Some(m) else At(s, s, Place(false, at, index))
  {
  }

  /** The two stores after a replacement. */
  function ReplaceBoth(v: Store, p: Store, channel: nat, id: string, r: Message): (t: (Store, Store)) {
    (ReplaceIn(v, channel, id, r),
     if Has(v, channel, id, r.sender) then p else ReplaceIn(p, channel, id, r))
  }

  /** Place by place: exactly the first match in the channel's volatile history becomes the
      replacement, or, when there is none, exactly the first match in its persistent one;
      everything else stays. */
  lemma ReplacesTheFirst(v: Store, p: Store, channel: nat, id: string, r: Message, a: Place)
    ensures var t := ReplaceBoth(v, p, channel, id, r);
            var here := if a.archived then p else v;
            var target :=
              && a.channel == channel && channel in here && IsFirstMatch(here[channel], id, r.sender, a.index)
              && (a.archived && channel in v ==> forall k :: !IsFirstMatch(v[channel], id, r.sender, k));
            At(t.0, t.1, a) == if target then Some(r) else At(v, p, a)
  {
    var inVolatile := FindReplaced(Get(v, channel), id, r.sender);
    if inVolatile.None? {
      assert forall k: nat :: !IsFirstMatch(Get(v, channel), id, r.sender, k);
    }
  }

  /** Across both stores and all channels at most one message changes; it carried the
      replaced id and was by the replacement's sender, and it becomes the replacement;
      so order and lengths stay. */
  lemma ReplacesAtMostOne(v: Store, p: Store, channel: nat, id: string, r: Message, a: Place, b: Place)
    ensures var t := ReplaceBoth(v, p, channel, id, r);
            && (At(v, p, a).Some? <==> At(t.0, t.1, a).Some?)
            && (At(v, p, a) != At(t.0, t.1, a) ==>
                  && Matches(At(v, p, a).value, id, r.sender) && At(t.0, t.1, a) == Some(r))
            && (At(v, p, a) != At(t.0, t.1, a) && At(v, p, b) != At(t.0, t.1, b) ==> a == b)
  {
  }
}
