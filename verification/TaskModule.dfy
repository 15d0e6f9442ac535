/** The updater task of main/iap_https.c: its two actions, over the TLS context, the two requests and the
    coordinator, its timer and one round of its loop. */
module TaskModule {
  import opened Platform
  import opened CStrings
  import opened Tls
  import opened Http
  import opened Request
  import opened HttpModule
  import opened CoordinatorModule
  import opened TlsModule
  import opened Updater
  import Polling
  import TaskRound

  class UpdaterTask {
    const tls: TlsContext
    const coordinator: Coordinator
    const metadataRequest: HttpRequest
    const firmwareRequest: HttpRequest
    var checkBit: bool
    var timer: Polling.Timer

    /** The end of iap_https_init. */
    constructor (tls: TlsContext, coordinator: Coordinator, created: bool, started: bool)
      requires coordinator.Valid()
      ensures Valid() && this.tls == tls && this.coordinator == coordinator
      ensures !checkBit && timer == Polling.Start(coordinator.pollingInterval, created, started).timer
    {
      this.tls, this.coordinator := tls, coordinator;
      metadataRequest := new HttpRequest(Metadata, WaitForCompleteBody, 512, coordinator);
      firmwareRequest := new HttpRequest(Firmware, StreamBody, 4096, coordinator);
      checkBit, timer := false, Polling.NoTimer;
      new;
      PrepareTimer(created, started);
    }

    ghost predicate Valid()
      reads this, coordinator, coordinator.iap, coordinator.iap.page, metadataRequest, firmwareRequest
    {
      && coordinator.Valid()
      && metadataRequest.coordinator == coordinator && firmwareRequest.coordinator == coordinator
      && metadataRequest.responseBuffer != coordinator.iap.page && firmwareRequest.responseBuffer != coordinator.iap.page
      && metadataRequest.kind == Metadata && metadataRequest.Cfg() == METADATA
      && firmwareRequest.kind == Firmware && firmwareRequest.Cfg() == FIRMWARE
    }

    ghost function View(): TaskRound.State
      reads this, coordinator, coordinator.iap, coordinator.iap.page
      requires coordinator.Valid()
    {
      TaskRound.State(coordinator.View(), checkBit, timer)
    }

    /** https_send_request on one of the two requests. */
    method SendHttps(http: HttpRequest, path: string, net: Network) returns (status: Status)
      requires Valid() && (http == metadataRequest || http == firmwareRequest)
      requires Proper(net) && net.before == http.View()
      modifies tls, http, http.responseBuffer, coordinator, coordinator.iap, coordinator.iap.page
      ensures Valid() && (coordinator.iap.page == old(coordinator.iap.page) || fresh(coordinator.iap.page))
      ensures (tls.View(), coordinator.View(), status) ==
        Send(ClientOf(http.kind, coordinator.iap.env), http.Cfg(), coordinator.serverHostName, path, old(tls.View()), net, old(coordinator.View()))
    {
      if path == [] {
        return Error;
      }
      if net.alloc == NoContext {
        return Crashed;
      }
      if net.alloc == NoBuffer {
        return Error;
      }
      var request := Submitted(coordinator.serverHostName, path, net.surplus);
      var responseBuffer := NewBuffer(net.mem);
      status := tls.SendRequest(request, responseBuffer, net.tx, net.rx, http);
    }

    /** malloc: a block with arbitrary contents. */
    method NewBuffer(contents: string) returns (block: array<char>)
      ensures fresh(block) && block[..] == contents
    {
      block := new char[|contents|](i requires 0 <= i < |contents| => contents[i]);
    }

    method CheckForUpdate(net: Network) returns (status: Status)
      requires Valid() && Proper(net) && net.before == metadataRequest.View()
      modifies tls, metadataRequest, metadataRequest.responseBuffer, coordinator, coordinator.iap, coordinator.iap.page
      ensures Valid() && (coordinator.iap.page == old(coordinator.iap.page) || fresh(coordinator.iap.page))
      ensures (tls.View(), coordinator.View(), status) == Updater.CheckForUpdate(old(coordinator.View()), old(tls.View()), net)
    {
      status := tls.Connect(net.script);
      if status != Done {
        return;
      }
      status := SendHttps(metadataRequest, Text(coordinator.serverMetadataPath), net);
    }

    /** A failed connect is only logged. */
    method DownloadImage(net: Network) returns (status: Status)
      requires Valid() && Proper(net) && net.before == firmwareRequest.View()
      modifies tls, firmwareRequest, firmwareRequest.responseBuffer, coordinator, coordinator.iap, coordinator.iap.page
      ensures Valid() && (coordinator.iap.page == old(coordinator.iap.page) || fresh(coordinator.iap.page))
      ensures (tls.View(), coordinator.View(), status) ==
        Updater.DownloadImage(coordinator.iap.env, old(coordinator.View()), old(tls.View()), net)
    {
      status := tls.Connect(net.script);
      if status == Blocked {
        return;
      }
      // An update of its own, whatever an earlier download left behind.
      coordinator.hasIapSession := false;
      status := SendHttps(firmwareRequest, Text(coordinator.serverFirmwarePath), net);
    }

    /** `created` and `started` are the results of xTimerCreate and of starting the timer. */
    method PrepareTimer(created: bool, started: bool)
      modifies this`timer
      ensures timer == Polling.PrepareTimer(old(timer), coordinator.pollingInterval, created, started)
    {
      if coordinator.pollingInterval > 0 {
        if timer == Polling.NoTimer {
          if !created {
            return;
          }
          timer := Polling.Dormant;
        }
        if started {
          timer := Polling.Armed;
        }
        return;
      }
      if timer != Polling.NoTimer {
        timer := Polling.NoTimer;
      }
    }

    /** A manual check, when no other task runs in between. */
    method TriggerProcessing()
      modifies this`checkBit
      ensures checkBit
    {
      if checkBit {
        return;
      }
      checkBit := true;
    }

    /** One round of the task loop, from the wake-up, when no other task runs in between. The download has
        priority. A round that hangs in a connection, or crashes, leaves the check bit and the timer as they were. */
    method Round(net: Network, created: bool, started: bool) returns (status: Status)
      requires Valid() && Proper(net) && (checkBit || coordinator.downloadBit)
      requires net.before == if coordinator.downloadBit then firmwareRequest.View() else metadataRequest.View()
      modifies this`checkBit, this`timer, tls, metadataRequest, metadataRequest.responseBuffer, firmwareRequest, firmwareRequest.responseBuffer
      modifies coordinator, coordinator.iap, coordinator.iap.page
      ensures Valid()
      ensures status !in {Blocked, Crashed} ==>
        (View(), tls.View()) == TaskRound.Round(coordinator.iap.env, old(View()), old(tls.View()), net, created, started)
      ensures status in {Blocked, Crashed} ==>
        && checkBit == old(checkBit) && timer == old(timer)
        && (tls.View(), coordinator.View(), status) ==
           if old(coordinator.downloadBit) then Updater.DownloadImage(coordinator.iap.env, old(coordinator.View()), old(tls.View()), net)
           else Updater.CheckForUpdate(old(coordinator.View()), old(tls.View()), net)
    {
      if coordinator.downloadBit {
        status := DownloadImage(net);
        if status in {Blocked, Crashed} {
          return;
        }
        coordinator.downloadBit := false;
      } else {
        status := CheckForUpdate(net);
        if status in {Blocked, Crashed} {
          return;
        }
        PrepareTimer(created, started);
        checkBit := false;
      }
    }
  }
}
