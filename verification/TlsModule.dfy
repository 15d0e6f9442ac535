/** The connection and the request loop of main/wifi_tls.c in their own form. The results of the mbedTLS
    calls are parameters; a method returns Blocked where the next call has not come back. */
module TlsModule {
  import opened Platform
  import opened Tls
  import opened Http
  import opened HttpModule

  class TlsContext {
    var isValid: bool
    var hasServerFd: bool
    var sockets: nat
    var wire: string

    ghost function View(): Link
      reads this
    {
      Link(isValid, hasServerFd, sockets, wire)
    }

    constructor ()
      ensures View() == Link(false, false, 0, [])
    {
      isValid, hasServerFd, sockets, wire := false, false, 0, [];
    }

    method ResetContext()
      modifies this`isValid
      ensures View() == Tls.ResetContext(old(View()))
    {
      isValid := false;
    }

    method Disconnect()
      modifies this
      ensures View() == Tls.Disconnect(old(View()))
    {
      if hasServerFd && sockets > 0 {
        sockets := sockets - 1;
      }
      hasServerFd := false;
      ResetContext();
    }

    method InitContext(script: ConnectScript) returns (ok: bool)
      modifies this`isValid
      ensures (View(), ok) == Tls.InitContext(old(View()), script)
    {
      if isValid {
        return true;
      }
      if !script.seeded {
        ResetContext();
        return false;
      }
      if !script.caParsed {
        ResetContext();
        return false;
      }
      if !script.peerParsed {
        ResetContext();
        return false;
      }
      if !script.setUp {
        ResetContext();
        return false;
      }
      isValid := true;
      ok := true;
    }

    method Handshake(results: seq<HandshakeResult>) returns (status: Status)
      ensures status == Tls.Handshake(results)
    {
      var k := 0;
      while k < |results|
        invariant k <= |results| && Tls.Handshake(results) == Tls.Handshake(results[k..])
      {
        match results[k]
        case HandshakeDone => return Done;
        case HandshakeAgain => k := k + 1;
        case HandshakeFailed => return Error;
      }
      status := Blocked;
    }

    method Connect(script: ConnectScript) returns (status: Status)
      modifies this
      ensures (View(), status) == Tls.Connect(old(View()), script)
    {
      var ok := InitContext(script);
      if !ok {
        return Error;
      }
      hasServerFd, wire := false, [];
      if !script.connected {
        ResetContext();
        return Error;
      }
      hasServerFd, sockets := true, sockets + 1;
      status := Handshake(script.handshake);
      if status == Blocked {
        return;
      }
      if status != Done {
        Disconnect();
        return Error;
      }
      if !script.verified {
        Disconnect();
        return Error;
      }
      if !script.pinned {
        Disconnect();
        return Error;
      }
    }

    /** The write loop; on a context that has been reset the first call fails. */
    method WriteRequest(request: string, tx: seq<WriteResult>) returns (rest: string, status: Status)
      modifies this`wire
      ensures (wire, rest, status) == WriteLoop(old(wire), request, if isValid then tx else [WriteFailed])
    {
      var results := if isValid then tx else [WriteFailed];
      var k := 0;
      rest := request;
      while |rest| > 0
        invariant k <= |results|
        invariant WriteLoop(wire, rest, results[k..]) == WriteLoop(old(wire), request, results)
        decreases |results| - k
      {
        if k == |results| {
          return rest, Blocked;
        }
        match results[k] {
          case Sent(n) =>
            var ret := if n < |rest| then n else |rest|;
            if ret == 0 {
              return rest, Error;
            }
            wire := wire + rest[..ret];
            rest := rest[ret..];
          case WriteAgain =>
          case WriteFailed => return rest, Error;
        }
        k := k + 1;
      }
      status := Done;
    }

    /** The read loop: hand every chunk, with its index, to the response callback. */
    method ReadResponse(mem: array<char>, rx: seq<ReadResult>, http: HttpRequest) returns (status: Status)
      requires http.Valid() && Legal(rx, mem.Length) && mem != http.responseBuffer && mem != http.coordinator.iap.page
      modifies mem, http, http.responseBuffer, http.coordinator, http.coordinator.iap, http.coordinator.iap.page
      ensures http.Valid() && (http.coordinator.iap.page == old(http.coordinator.iap.page) || fresh(http.coordinator.iap.page))
      ensures ((http.View(), http.coordinator.View()), status) ==
        ReadLoop(AsCallback(ClientOf(http.kind, http.coordinator.iap.env), http.Cfg()), old(mem[..]), rx, 0,
                 (old(http.View()), old(http.coordinator.View())))
    {
      hide Http.TlsCallback, WellFormed;
      ghost var cb := AsCallback(ClientOf(http.kind, http.coordinator.iap.env), http.Cfg());
      ghost var result := ReadLoop(cb, mem[..], rx, 0, (http.View(), http.coordinator.View()));
      var callbackIndex, k := 0, 0;
      while k < |rx|
        invariant k <= |rx| && http.Valid()
        invariant http.coordinator.iap.page == old(http.coordinator.iap.page) || fresh(http.coordinator.iap.page)
        invariant mem != http.coordinator.iap.page && (callbackIndex > 0 ==> WellFormed(http.Cfg(), http.View()))
        invariant ReadLoop(cb, mem[..], rx[k..], callbackIndex, (http.View(), http.coordinator.View())) == result
      {
        match rx[k]
        case Eof => return Done;
        case ReadFailed => return Error;
        case ReadAgain => k := k + 1;
        case Data(bytes) =>
          Fill(mem, bytes, http);
          var verdict := http.TlsCallback(mem, callbackIndex, |bytes|);
          if verdict == Stop {
            return Done;
          }
          if verdict == Fault {
            return Crashed;
          }
          callbackIndex := callbackIndex + 1;
          k := k + 1;
      }
      status := Blocked;
    }

    /** mbedtls_ssl_read puts the data at the start of the buffer. */
    method Fill(mem: array<char>, bytes: string, http: HttpRequest)
      requires |bytes| <= mem.Length && http.Valid() && mem != http.responseBuffer && mem != http.coordinator.iap.page
      modifies mem
      ensures mem[..] == Store(old(mem[..]), bytes) && mem[..|bytes|] == bytes
      ensures http.Valid() && http.View() == old(http.View()) && http.coordinator.View() == old(http.coordinator.View())
    {
      forall i | 0 <= i < |bytes| {
        mem[i] := bytes[i];
      }
      assert mem[..] == Store(old(mem[..]), bytes);
    }

    method SendRequest(request: string, mem: array<char>, tx: seq<WriteResult>, rx: seq<ReadResult>, http: HttpRequest)
      returns (status: Status)
      requires http.Valid() && Legal(rx, mem.Length) && mem != http.responseBuffer && mem != http.coordinator.iap.page
      modifies this, mem, http, http.responseBuffer, http.coordinator, http.coordinator.iap, http.coordinator.iap.page
      ensures http.Valid() && (http.coordinator.iap.page == old(http.coordinator.iap.page) || fresh(http.coordinator.iap.page))
      ensures (View(), (http.View(), http.coordinator.View()), status) ==
        Tls.SendRequest(AsCallback(ClientOf(http.kind, http.coordinator.iap.env), http.Cfg()), old(View()), request,
                        old(mem[..]), tx, rx, (old(http.View()), old(http.coordinator.View())))
    {
      var _, sent := WriteRequest(request, tx);
      if sent == Blocked {
        return Blocked;
      }
      if sent != Done {
        Disconnect();
        return Error;
      }
      status := ReadResponse(mem, rx, http);
      if status == Done || status == Error {
        Disconnect();
      }
    }
  }
}
