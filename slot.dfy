/** The single WebSocket connection slot of main.cpp (the global ws_fd), as
    pure transitions on its value. The class Server.DipSwitchDemo performs
    these transitions in place; the lemmas here are about sequences of them. */
module Slot {

  /** The one resource that may be upgraded to a WebSocket. */
  const IndexUrl: string := "INDEX"

  /** ASCII upper-casing; other characters are left alone. */
  function ToUpper(c: char): char {
    if 'a' <= c <= 'z' then (c as int - 32) as char else c
  }

  /** httpstricmp(url, "INDEX"): url is "INDEX" up to ASCII case. */
  predicate UrlMatches(url: string) {
    |url| == |IndexUrl| && forall k :: 0 <= k < |url| ==> ToUpper(url[k]) == IndexUrl[k]
  }

  /** The reader and reporter loops serve the slot only while ws_fd > 0. */
  predicate Active(fd: int) {
    fd > 0
  }

  /** MyDoWSUpgrade treats the slot as free only while ws_fd < 0. */
  predicate Free(fd: int) {
    fd < 0
  }

  /** What MyDoWSUpgrade did with a request: upgraded it (returns 2), tried
      and failed to upgrade it (returns 0, no response), or answered it with
      a not-found response (returns 0). */
  datatype Reply = Upgraded | UpgradeFailed | NotFound

  function ReturnCode(reply: Reply): int {
    if reply.Upgraded? then 2 else 0
  }

  datatype Outcome = Outcome(fd: int, reply: Reply)

  /** An upgrade request for url in slot state fd; rv is what the upgrade
      handshake returns when it is attempted (a descriptor, or negative on
      failure). */
  function Upgrade(fd: int, url: string, rv: int): Outcome {
    if UrlMatches(url) && Free(fd) then
      if rv >= 0 then Outcome(rv, Upgraded) else Outcome(fd, UpgradeFailed)
    else Outcome(fd, NotFound)
  }

  /** The events that change the slot: an upgrade request, or the reader
      seeing the error set of select() hold the connection. The reader only
      selects while the slot is active. */
  datatype Event = UpgradeRequest(url: string, rv: int) | SocketError

  function Step(fd: int, e: Event): int {
    match e
    case UpgradeRequest(url, rv) => Upgrade(fd, url, rv).fd
    case SocketError => if Active(fd) then -1 else fd
  }

  function Run(fd: int, events: seq<Event>): int
    decreases events
  {
    if events == [] then fd else Run(Step(fd, events[0]), events[1..])
  }

  /** How many requests along the run were upgraded. */
  function Accepted(fd: int, events: seq<Event>): nat
    decreases events
  {
    if events == [] then 0
    else
      var e := events[0];
      (if e.UpgradeRequest? && Upgrade(fd, e.url, e.rv).reply.Upgraded? then 1 else 0)
      + Accepted(Step(fd, e), events[1..])
  }

  predicate NoErrors(events: seq<Event>) {
    forall i :: 0 <= i < |events| ==> !events[i].SocketError?
  }

  /** An upgrade is accepted exactly when the URL matches, the slot is free
      and the handshake succeeds; then the slot holds the new descriptor.
      Every other request leaves the slot as it was, and it is answered with
      not-found exactly when the URL does not match or the slot is taken. */
  lemma UpgradeCases(fd: int, url: string, rv: int)
    ensures Upgrade(fd, url, rv).reply.Upgraded? <==> UrlMatches(url) && fd < 0 && rv >= 0
    ensures Upgrade(fd, url, rv).reply.Upgraded? ==> Upgrade(fd, url, rv).fd == rv
    ensures !Upgrade(fd, url, rv).reply.Upgraded? ==> Upgrade(fd, url, rv).fd == fd
    ensures Upgrade(fd, url, rv).reply.NotFound? <==> !(UrlMatches(url) && fd < 0)
    ensures ReturnCode(Upgrade(fd, url, rv).reply) == 2 <==> Upgrade(fd, url, rv).reply.Upgraded?
  {
  }

  /** A slot that holds a descriptor (ws_fd >= 0) keeps it, and accepts no
      other connection, until the reader sees an error on it; a slot holding
      0 is never served by the reader, so it keeps 0 whatever happens. */
  lemma {:induction false} HeldUntilError(fd: int, events: seq<Event>)
    requires fd >= 0
    requires fd == 0 || NoErrors(events)
    ensures Run(fd, events) == fd
    ensures Accepted(fd, events) == 0
  {
    if events != [] {
      assert Step(fd, events[0]) == fd;
      assert fd == 0 || NoErrors(events[1..]) by {
        if fd != 0 {
          forall i | 0 <= i < |events[1..]| ensures !events[1..][i].SocketError? {
            assert events[1..][i] == events[i + 1];
          }
        }
      }
      HeldUntilError(fd, events[1..]);
    }
  }

  /** The ws_fd == 0 quirk: if the handshake ever returns descriptor 0, the
      slot is neither active nor free, no report is sent on it, it is never
      closed, and every later upgrade request is refused. */
  lemma ZeroSlotIsStuck(events: seq<Event>)
    ensures !Active(0) && !Free(0)
    ensures Run(0, events) == 0 && Accepted(0, events) == 0
  {
    HeldUntilError(0, events);
  }

  /** At most one connection is accepted between two socket errors. */
  lemma {:induction false} OneConnectionBetweenErrors(fd: int, events: seq<Event>)
    requires NoErrors(events)
    ensures Accepted(fd, events) <= 1
  {
    if events != [] {
      var e := events[0];
      assert NoErrors(events[1..]) by {
        forall i | 0 <= i < |events[1..]| ensures !events[1..][i].SocketError? {
          assert events[1..][i] == events[i + 1];
        }
      }
      if e.UpgradeRequest? && Upgrade(fd, e.url, e.rv).reply.Upgraded? {
        HeldUntilError(e.rv, events[1..]);
      } else {
        OneConnectionBetweenErrors(Step(fd, e), events[1..]);
      }
    }
  }

  /** The error branch frees an active slot, and the next matching request
      with a successful handshake is accepted; without the error, the same
      request is refused and the slot keeps its connection. */
  lemma ErrorFreesSlot(fd: int, url: string, rv: int)
    requires Active(fd) && UrlMatches(url) && rv >= 0
    ensures Free(Step(fd, SocketError))
    ensures Run(fd, [SocketError, UpgradeRequest(url, rv)]) == rv
    ensures Accepted(fd, [SocketError, UpgradeRequest(url, rv)]) == 1
    ensures Run(fd, [UpgradeRequest(url, rv)]) == fd
    ensures Accepted(fd, [UpgradeRequest(url, rv)]) == 0
  {
    var request := [UpgradeRequest(url, rv)];
    assert [SocketError, UpgradeRequest(url, rv)][1..] == request;
    assert request[1..] == [];
    assert Run(-1, request) == Run(rv, []);
    assert Accepted(-1, request) == 1 + Accepted(rv, []);
  }

  /** Some spellings of the upgrade URL. */
  lemma IndexSpellings()
    ensures UrlMatches("INDEX") && UrlMatches("index") && UrlMatches("InDeX")
    ensures !UrlMatches("") && !UrlMatches("index.html") && !UrlMatches("INDEY")
  {
    assert !(ToUpper("INDEY"[4]) == IndexUrl[4]);
  }
}
