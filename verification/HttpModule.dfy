/** https_tls_callback of main/https_client.c in its own form: one response buffer, filled and
    rewritten in place, and counters beside it. */
module HttpModule {
  import opened Platform
  import opened CStrings
  import opened Tls
  import opened Http
  import opened IapModule
  import opened CoordinatorModule
  import Updater

  /** Which of the coordinator's body callbacks the request has. */
  datatype Kind = Firmware | Metadata

  ghost function ClientOf(kind: Kind, env: Env): Client<Updater.State> {
    if kind == Firmware then Updater.FirmwareClient(env) else Updater.MetadataClient()
  }

  class HttpRequest {
    const kind: Kind
    const responseMode: Mode
    const responseBuffer: array<char>
    const coordinator: Coordinator
    var responseBufferCount: nat
    var responseBodyTotalCount: nat
    var contentLength: nat
    var isProcessingHeaders: bool

    constructor (kind: Kind, mode: Mode, capacity: nat, coordinator: Coordinator)
      ensures this.kind == kind && responseMode == mode && responseBuffer.Length == capacity
      ensures this.coordinator == coordinator && fresh(responseBuffer)
    {
      this.kind, responseMode, this.coordinator := kind, mode, coordinator;
      responseBuffer := new char[capacity];
      responseBufferCount, responseBodyTotalCount, contentLength, isProcessingHeaders := 0, 0, 0, true;
    }

    ghost function Cfg(): Config {
      Config(responseMode, responseBuffer.Length, LatestChunk)
    }

    ghost function View(): Context
      reads this, responseBuffer
    {
      Context(responseBuffer[..], responseBufferCount, responseBodyTotalCount, contentLength, isProcessingHeaders)
    }

    /** The objects behind the request do not overlap. */
    ghost predicate Valid()
      reads this, coordinator, coordinator.iap, coordinator.iap.page
    {
      coordinator.Valid() && responseBuffer != coordinator.iap.page
    }

    /** What index 0 does before anything else. */
    method Reset()
      modifies this, responseBuffer
      ensures View() == Cleared(Cfg())
    {
      responseBufferCount, responseBodyTotalCount, contentLength, isProcessingHeaders := 0, 0, 0, true;
      forall i | 0 <= i < responseBuffer.Length {
        responseBuffer[i] := NUL;
      }
      assert responseBuffer[..] == Zeros(responseBuffer.Length);
    }

    method Append(mem: array<char>, len: nat)
      requires mem != responseBuffer && len <= mem.Length && responseBufferCount + len <= responseBuffer.Length
      modifies this`responseBufferCount, this`responseBodyTotalCount, responseBuffer
      ensures View() == Http.Append(old(View()), mem[..len])
    {
      forall i | 0 <= i < len {
        responseBuffer[responseBufferCount + i] := mem[i];
      }
      assert responseBuffer[..] == old(responseBuffer[..])[..responseBufferCount] + mem[..len] + old(responseBuffer[..])[responseBufferCount + len..];
      responseBufferCount := responseBufferCount + len;
      responseBodyTotalCount := (responseBodyTotalCount + len) % WORD;
    }

    /** The header part, after the data has been appended. */
    method ProcessHeaders(mem: array<char>) returns (step: HeaderStep)
      requires mem != responseBuffer && isProcessingHeaders && WellFormed(Cfg(), View())
      modifies this, responseBuffer
      ensures step == Headers(Cfg(), old(View()), mem[..])
      ensures step.Enter? ==> View() == step.x
      ensures step == Incomplete ==> View() == old(View())
      ensures !step.Enter? && step != Incomplete ==> View() == Terminated(old(View()))
    {
      hide Judge, MoveToFront, Slice;
      var search := StrStr(responseBuffer[..], TERMINATOR);
      if search == Overrun {
        return OutOfBounds;
      }
      if search == Absent {
        return Incomplete;
      }
      var endOfHeader := search.at;
      TerminatorInData(Cfg(), View());
      var nofHeaderBytes := endOfHeader + 4;
      TextUpTo(responseBuffer[..], endOfHeader);
      responseBuffer[endOfHeader] := NUL;
      match Judge(Text(responseBuffer[..]))
      case BadHeaders(err) => return Refused(err);
      case NoLength => return Unsized;
      case Accept(length) =>
        var left := responseBufferCount - nofHeaderBytes;
        if left > 0 && mem.Length < responseBufferCount {
          return OutOfBounds;
        }
        contentLength := length;
        MoveLeftover(mem, nofHeaderBytes, left);
        isProcessingHeaders := false;
        step := Enter(Context(responseBuffer[..], left, left % WORD, length, false));
    }

    /** The text of the headers once their end has been overwritten with a NUL. */
    lemma TextUpTo(mem: string, e: nat)
      requires e < |mem| && e <= |Text(mem)|
      ensures Text(mem[e := NUL]) == mem[..e]
    {
      assert forall c :: c in mem[..e] ==> c in Text(mem);
      TextIs(mem[e := NUL], mem[..e]);
    }

    /** The copy of the leftover body bytes, from the TLS buffer as in the code. */
    method MoveLeftover(mem: array<char>, start: nat, left: nat)
      requires mem != responseBuffer && left < responseBuffer.Length && (left > 0 ==> start + left <= mem.Length)
      modifies this`responseBufferCount, this`responseBodyTotalCount, responseBuffer
      ensures responseBufferCount == left && responseBodyTotalCount == left % WORD
      ensures responseBuffer[..] == MoveToFront(old(responseBuffer[..]), Slice(mem[..], start, left))
    {
      responseBufferCount := left;
      responseBodyTotalCount := left % WORD;
      if left > 0 {
        forall i | 0 <= i < left {
          responseBuffer[i] := mem[start + i];
        }
      }
      responseBuffer[left] := NUL;
    }

    /** The request's body callback with the first `n` bytes of the response buffer. */
    method BodyCallback(n: nat) returns (more: bool)
      requires Valid() && n <= responseBuffer.Length
      modifies coordinator, coordinator.iap, coordinator.iap.page
      ensures Valid() && (coordinator.iap.page == old(coordinator.iap.page) || fresh(coordinator.iap.page))
      ensures View() == old(View())
      ensures Reply(coordinator.View(), more) ==
        ClientOf(kind, coordinator.iap.env).body(old(coordinator.View()), responseBuffer[..n], responseBuffer[n..])
    {
      match kind
      case Firmware => more := coordinator.FirmwareBody(responseBuffer[..n]);
      case Metadata => more := coordinator.MetadataBody(responseBuffer[..n], responseBuffer[n..]);
    }

    method ProcessBody() returns (verdict: Verdict)
      requires Valid() && responseBufferCount <= responseBuffer.Length
      modifies this`responseBufferCount, coordinator, coordinator.iap, coordinator.iap.page
      ensures Valid() && (coordinator.iap.page == old(coordinator.iap.page) || fresh(coordinator.iap.page))
      ensures (View(), coordinator.View(), verdict) ==
        Http.Body(ClientOf(kind, coordinator.iap.env), Cfg(), old(View()), old(coordinator.View()))
    {
      if responseMode == WaitForCompleteBody {
        if responseBufferCount < contentLength {
          return Continue;
        }
        var _ := BodyCallback(responseBufferCount);
        return Stop;
      }
      if responseBufferCount > 0 {
        var more := BodyCallback(responseBufferCount);
        if !more {
          return Stop;
        }
        // Don't read after the end.
        if responseBodyTotalCount >= contentLength {
          assert responseBuffer[..0] == [] && responseBuffer[0..] == responseBuffer[..];
          var _ := BodyCallback(0);
          return Stop;
        }
        responseBufferCount := 0;
      }
      verdict := Continue;
    }

    method TlsCallback(mem: array<char>, index: nat, len: nat) returns (verdict: Verdict)
      requires Valid() && len <= mem.Length && mem != responseBuffer && mem != coordinator.iap.page
      requires index > 0 ==> WellFormed(Cfg(), View())
      modifies this, responseBuffer, coordinator, coordinator.iap, coordinator.iap.page
      ensures Valid() && (coordinator.iap.page == old(coordinator.iap.page) || fresh(coordinator.iap.page))
      ensures mem[..] == old(mem[..])
      ensures (View(), coordinator.View(), verdict) ==
        Http.TlsCallback(ClientOf(kind, coordinator.iap.env), Cfg(), old(View()), old(coordinator.View()), mem[..], index, len)
    {
      if index == 0 {
        Reset();
      }
      if responseBufferCount + len > responseBuffer.Length {
        return Stop;
      }
      Append(mem, len);
      verdict := Process(mem);
    }

    method Process(mem: array<char>) returns (verdict: Verdict)
      requires Valid() && WellFormed(Cfg(), View()) && mem != responseBuffer && mem != coordinator.iap.page
      modifies this, responseBuffer, coordinator, coordinator.iap, coordinator.iap.page
      ensures Valid() && (coordinator.iap.page == old(coordinator.iap.page) || fresh(coordinator.iap.page))
      ensures (View(), coordinator.View(), verdict) ==
        Http.Process(ClientOf(kind, coordinator.iap.env), Cfg(), old(View()), old(coordinator.View()), old(mem[..]))
    {
      if isProcessingHeaders {
        var step := ProcessHeaders(mem);
        match step {
          case Incomplete => return Continue;
          case Refused(_) => return Stop;
          case Unsized => return Stop;
          case OutOfBounds => return Fault;
          case Enter(_) =>
        }
      }
      verdict := ProcessBody();
    }
  }
}
