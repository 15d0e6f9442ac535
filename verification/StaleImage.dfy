/** The copy from the wrong buffer, up to the flash. */
module StaleImage {
  import opened Platform
  import opened Tls
  import opened Http
  import opened HttpPlan
  import opened HttpStream
  import opened HttpWait
  import opened IapImage
  import opened Updater
  import opened Download
  import opened UpdateCheck
  import Iap

  /** Everything goes well with the download but, perhaps, the copy: a response of `n` body bytes arrives and no call
      fails. Nothing here depends on what the TLS buffer held before. */
  ghost predicate Served(env: Env, u: State, l: Link, net: Network, e: nat, n: nat) {
    && Proper(net) && Iap.Inv(u.iap) && !u.iap.dev.fault && u.iap.initialized && u.iap.dev.boot != Other
    && Flawless(env, u.iap.dev.tick) && Requested(u, l, net) && GoodResponse(net, e, n) && 0 < n < 0x8000_0000
  }

  /** The image installed by a download whose TLS buffer held `mem` is the body that was sent. */
  ghost predicate InstallsBody(env: Env, u: State, l: Link, net: Network, e: nat, mem: string)
    requires Proper(net) && |mem| == TLS_BUFFER && e + 4 <= |Flat(Arriving(net.rx))|
  {
    Installed(env, u.iap, DownloadImage(env, u, l, net.(mem := mem)).1.iap, Flat(Arriving(net.rx))[e + 4..])
  }

  lemma ServedWith(env: Env, u: State, l: Link, net: Network, e: nat, n: nat, mem: string)
    requires Served(env, u, l, net, e, n) && |mem| == TLS_BUFFER
    ensures Served(env, u, l, net.(mem := mem), e, n)
  {
    hide Iap.Inv, Flawless, HeaderEnds, Judge;
  }

  lemma OneImage(env: Env, s: Iap.State, s': Iap.State, a: string, b: string)
    requires Installed(env, s, s', a) && Installed(env, s, s', b)
    ensures a == b
  {
  }

  /** A byte that differs from what the TLS buffer held before is installed wrong. */
  lemma StaleByteIsInstalled(env: Env, u: State, l: Link, net: Network, e: nat, n: nat, mem: string, stream: string, last: nat)
    returns (wrong: string)
    requires Served(env, u, l, net, e, n) && stream == Flat(Arriving(net.rx))
    requires |mem| == TLS_BUFFER && !CopiesRight(FIRMWARE, Arriving(net.rx), e + 4)
    requires e + 4 <= last < |stream| && Arrived(Arriving(net.rx), e + 4) == last + 1 && last < |mem| && mem[last] != stream[last]
    ensures !InstallsBody(env, u, l, net, e, mem)
    ensures Installed(env, u.iap, DownloadImage(env, u, l, net.(mem := mem)).1.iap, wrong)
    ensures |wrong| == n && wrong != stream[e + 4..]
  {
    hide Installed, DownloadImage, Requested, Iap.Inv, Flawless, Judge, HeaderEnds, CompleteAt, PlanOf, StreamPlan, Arrived, Slice, Flat;
    var net', chunks := net.(mem := mem), Arriving(net.rx);
    ServedWith(env, u, l, net, e, n, mem);
    ArrivingFits(net.rx, TLS_BUFFER);
    ArrivedIs([], mem, chunks, e + 4);
    assert [] + stream == stream;
    var at := CompleteAt([], mem, chunks, e + 4);
    var leftover := StaleLeftover(FIRMWARE, mem, chunks, e, n, at, last, stream);
    RestOfStream([], mem, chunks, e + 4, e + 4);
    var fragments := [leftover] + at.rest;
    FlatCons(leftover, at.rest);
    DownloadInstallsPlan(env, u, l, net');
    wrong := Flat(fragments);
    assert Flat(fragments)[|leftover| - 1] != stream[e + 4..][|leftover| - 1];
    if InstallsBody(env, u, l, net, e, mem) {
      OneImage(env, u.iap, DownloadImage(env, u, l, net').1.iap, Flat(fragments), stream[e + 4..]);
    }
  }

  lemma FlatCons(f: string, rest: seq<string>)
    ensures Flat([f] + rest) == f + Flat(rest)
  {
    assert ([f] + rest)[1..] == rest;
  }

  /** As written, a download that goes well in every other respect installs the body, whatever the TLS buffer held
      before, if and only if the header block ends in the first chunk or at the end of a later one. */
  lemma BodyInstalledIff(env: Env, u: State, l: Link, net: Network, e: nat, n: nat)
    requires Served(env, u, l, net, e, n) && e + 4 <= |Flat(Arriving(net.rx))|
    ensures (forall mem: string :: |mem| == TLS_BUFFER ==> InstallsBody(env, u, l, net, e, mem)) <==>
            CopiesRight(FIRMWARE, Arriving(net.rx), e + 4)
  {
    hide InstallsBody, Requested, Iap.Inv, Flawless, Judge, HeaderEnds, Arrived, Flat;
    var chunks, stream := Arriving(net.rx), Flat(Arriving(net.rx));
    if CopiesRight(FIRMWARE, chunks, e + 4) {
      forall mem: string | |mem| == TLS_BUFFER ensures InstallsBody(env, u, l, net, e, mem) {
        RightIsInstalled(env, u, l, net, e, n, mem);
      }
    } else {
      ArrivedWithin(chunks, e + 4);
      var last := Arrived(chunks, e + 4) - 1;
      var mem := Differing(TLS_BUFFER, stream, last);
      var _ := StaleByteIsInstalled(env, u, l, net, e, n, mem, stream, last);
    }
  }

  lemma RightIsInstalled(env: Env, u: State, l: Link, net: Network, e: nat, n: nat, mem: string)
    requires Served(env, u, l, net, e, n) && e + 4 <= |Flat(Arriving(net.rx))| && |mem| == TLS_BUFFER
    requires CopiesRight(FIRMWARE, Arriving(net.rx), e + 4)
    ensures InstallsBody(env, u, l, net, e, mem)
  {
    hide Installed, DownloadImage, Requested, Iap.Inv, Flawless, GoodResponse;
    ServedWith(env, u, l, net, e, n, mem);
    DownloadInstallsBody(env, u, l, net.(mem := mem), e, n);
  }

  // ---------- The same for a check ----------

  /** The buffer the metadata callback should be shown. */
  ghost function RightShown(stream: string, e: nat, arrived: nat, k: int, n: nat): Option<string>
    requires e + 4 <= arrived <= |stream| && arrived <= METADATA.capacity && arrived - e - 4 <= k <= |stream| - e - 4
  {
    if k < n || k > METADATA.capacity then None else Some(Buffer(stream, e, arrived, k, stream[e + 4..arrived]))
  }

  /** A response that reaches its callback, or would, whatever the TLS buffer held before. */
  ghost predicate Asked(u: State, l: Link, net: Network, e: nat, n: nat) {
    && Proper(net) && CheckRequested(u, l, net) && Answers(net, e, n)
    && Arrived(Arriving(net.rx), e + 4) <= METADATA.capacity
  }

  lemma AskedWith(u: State, l: Link, net: Network, e: nat, n: nat, mem: string)
    requires Asked(u, l, net, e, n) && |mem| == TLS_BUFFER
    ensures Asked(u, l, net.(mem := mem), e, n)
  {
    hide HeaderEnds, Judge;
  }

  ghost predicate ShownRight(u: State, l: Link, net: Network, e: nat, n: nat, mem: string)
    requires Asked(u, l, net, e, n) && |mem| == TLS_BUFFER
  {
    AskedWith(u, l, net, e, n, mem);
    CheckOutcome(u, l, net, e, n);
    var chunks := Arriving(net.rx);
    Shown(u, l, net.(mem := mem)) == RightShown(Flat(chunks), e, Arrived(chunks, e + 4), Taken(chunks, e, n), n)
  }

  lemma BuffersDiffer(stream: string, e: nat, arrived: nat, k: int, a: string, b: string)
    requires e + 4 + |a| == arrived <= |stream| && |b| == |a| > 0 && a[|a| - 1] != b[|a| - 1]
    requires arrived <= METADATA.capacity && |a| <= k <= |stream| - e - 4 && k <= METADATA.capacity
    ensures Buffer(stream, e, arrived, k, a) != Buffer(stream, e, arrived, k, b)
  {
    assert Buffer(stream, e, arrived, k, a)[|a| - 1] == a[|a| - 1];
    assert Buffer(stream, e, arrived, k, b)[|a| - 1] == b[|a| - 1];
  }

  lemma StaleByteIsShown(u: State, l: Link, net: Network, e: nat, n: nat, mem: string, stream: string, last: nat)
    requires Asked(u, l, net, e, n) && |mem| == TLS_BUFFER && stream == Flat(Arriving(net.rx))
    requires !CopiesRight(METADATA, Arriving(net.rx), e + 4)
    requires e + 4 <= last < |stream| && Arrived(Arriving(net.rx), e + 4) == last + 1 && last < |mem| && mem[last] != stream[last]
    requires n <= Taken(Arriving(net.rx), e, n) <= METADATA.capacity
    ensures !ShownRight(u, l, net, e, n, mem)
  {
    hide Judge, HeaderEnds, Shown, CheckRequested, Arrived, Taken, Flat, Copied, CompleteAt, Buffer, Slice;
    var net', chunks := net.(mem := mem), Arriving(net.rx);
    AskedWith(u, l, net, e, n, mem);
    CheckOutcome(u, l, net', e, n);
    CheckOutcome(u, l, net, e, n);
    ArrivingFits(net.rx, TLS_BUFFER);
    ArrivedIs([], mem, chunks, e + 4);
    assert [] + stream == stream;
    var at := CompleteAt([], mem, chunks, e + 4);
    var leftover, right := Leftover(net', e), stream[e + 4..last + 1];
    CopiedIs(METADATA, stream, e, at, leftover, right);
    LeftoversDiffer(mem, chunks, e + 4, at, last, leftover, right);
    BuffersDiffer(stream, e, last + 1, Taken(chunks, e, n), leftover, right);
  }

  /** As written, the metadata callback is shown the right buffer, whatever the TLS buffer held before, if and only if the
      header block ends in the first chunk or no body byte shares a chunk with its end, or the body is never announced. */
  lemma BodyShownIff(u: State, l: Link, net: Network, e: nat, n: nat)
    requires Asked(u, l, net, e, n)
    ensures var k := Taken(Arriving(net.rx), e, n);
      (forall mem: string :: |mem| == TLS_BUFFER ==> ShownRight(u, l, net, e, n, mem)) <==>
      CopiesRight(METADATA, Arriving(net.rx), e + 4) || k < n || k > METADATA.capacity
  {
    hide Judge, HeaderEnds, Shown, CheckRequested, Arrived, Taken, Flat, Asked, ShownRight;
    var chunks, stream := Arriving(net.rx), Flat(Arriving(net.rx));
    var k := Taken(chunks, e, n);
    AskedArrives(u, l, net, e, n);
    if CopiesRight(METADATA, chunks, e + 4) || k < n || k > METADATA.capacity {
      forall mem: string | |mem| == TLS_BUFFER ensures ShownRight(u, l, net, e, n, mem) {
        RightIsShown(u, l, net, e, n, mem);
      }
    } else {
      var last := Arrived(chunks, e + 4) - 1;
      var mem := Differing(TLS_BUFFER, stream, last);
      StaleByteIsShown(u, l, net, e, n, mem, stream, last);
    }
  }

  lemma AskedArrives(u: State, l: Link, net: Network, e: nat, n: nat)
    requires Asked(u, l, net, e, n)
    ensures var chunks := Arriving(net.rx);
      && e + 4 <= Arrived(chunks, e + 4) <= |Flat(chunks)| && Arrived(chunks, e + 4) <= METADATA.capacity && chunks != []
      && (Arrived(chunks, e + 4) == e + 4 ==> CopiesRight(METADATA, chunks, e + 4))
  {
    hide Judge, HeaderEnds, Shown, CheckRequested, Arrived;
    CheckOutcome(u, l, net, e, n);
  }

  lemma RightIsShown(u: State, l: Link, net: Network, e: nat, n: nat, mem: string)
    requires Asked(u, l, net, e, n) && |mem| == TLS_BUFFER && Arriving(net.rx) != []
    requires var chunks := Arriving(net.rx);
      CopiesRight(METADATA, chunks, e + 4) || Taken(chunks, e, n) < n || Taken(chunks, e, n) > METADATA.capacity
    ensures ShownRight(u, l, net, e, n, mem)
  {
    hide Judge, HeaderEnds, Shown, CheckRequested, Arrived, Taken, Flat, Leftover, Buffer;
    AskedWith(u, l, net, e, n, mem);
    CheckOutcome(u, l, net.(mem := mem), e, n);
    if CopiesRight(METADATA, Arriving(net.rx), e + 4) { RightLeftover(net.(mem := mem), e, n); }
  }
}
