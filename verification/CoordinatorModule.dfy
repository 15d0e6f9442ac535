/** The coordinator of main/iap_https.c in its own form: static variables changed by the callbacks of the
    requests. */
module CoordinatorModule {
  import opened Platform
  import opened CStrings
  import opened Http
  import opened HttpWait
  import opened Updater
  import opened IapModule
  import Iap

  /** The stored value is the C string in the buffer. */
  lemma ValueIsText(mem: string, key: string, strLen: int, buffer: string)
    requires ReadString(mem, key, strLen).Got?
    requires var v := ReadString(mem, key, strLen).value;
      |v| < |buffer| && buffer[..|v|] == v && buffer[|v|] == NUL
    ensures Text(buffer) == ReadString(mem, key, strLen).value
  {
    var v := ReadString(mem, key, strLen).value;
    var i := ValueInText(mem, key, strLen, v);
    NoNulIn(Text(mem), i, i + |v|);
    TextIs(buffer, v);
  }

  lemma ValueInText(mem: string, key: string, strLen: int, v: string) returns (i: nat)
    requires ReadString(mem, key, strLen) == Got(v)
    ensures i + |v| <= |Text(mem)| && v == Text(mem)[i..i + |v|]
  {
    i := StrStr(mem, key).at + |key|;
    var line := Line(Text(mem)[i..]);
    assert v == line[..|v|] == Text(mem)[i..][..|v|];
  }

  class Coordinator {
    const iap: InAppProgrammer
    var hasIapSession: bool
    var hasNewFirmware: bool
    var totalNofBytesReceived: int
    var downloadBit: bool
    var restarted: bool
    var fault: bool
    const currentSoftwareVersion: int
    const serverHostName: string
    const serverMetadataPath: string
    var serverFirmwarePath: string
    var pollingInterval: nat
    const autoReboot: bool

    ghost predicate Valid()
      reads this, iap, iap.page
    {
      iap.Valid()
    }

    ghost function View(): State
      reads this, iap, iap.page
      requires Valid()
    {
      State(iap.View(), hasIapSession, hasNewFirmware, totalNofBytesReceived, downloadBit, restarted, fault,
            currentSoftwareVersion, pollingInterval, serverHostName, serverMetadataPath, serverFirmwarePath, autoReboot)
    }

    /** iap_https_init, up to the start of the task. */
    constructor (iap: InAppProgrammer, version: int, host: string, metadataPath: string, firmwarePath: string,
                 interval: nat, autoReboot: bool)
      requires iap.Valid()
      modifies iap
      ensures Valid() && this.iap == iap && iap.page == old(iap.page)
      ensures View() == State(Iap.Init(old(iap.View())).0, false, false, 0, false, false, false,
                              version, interval, host, metadataPath, firmwarePath, autoReboot)
    {
      this.iap := iap;
      hasIapSession, hasNewFirmware, totalNofBytesReceived := false, false, 0;
      downloadBit, restarted, fault := false, false, false;
      currentSoftwareVersion, serverHostName, serverMetadataPath := version, host, metadataPath;
      serverFirmwarePath, pollingInterval, this.autoReboot := firmwarePath, interval, autoReboot;
      new;
      var _ := iap.Init();
    }

    /** Start of an update in the callback: the session to write to. */
    method OpenSession() returns (ok: bool)
      requires Valid()
      modifies this`hasIapSession, this`totalNofBytesReceived, iap
      ensures Valid() && (iap.page == old(iap.page) || fresh(iap.page))
      ensures (View(), ok) == Updater.OpenSession(iap.env, old(View()))
    {
      if !hasIapSession {
        var result := iap.Begin();
        if result == Iap.SessionAlreadyOpen {
          var _ := iap.Abort();
          result := iap.Begin();
        }
        if result != Iap.Ok {
          return false;
        }
        totalNofBytesReceived := 0;
        hasIapSession := true;
      }
      ok := true;
    }

    method FirmwareBody(fragment: string) returns (more: bool)
      requires Valid()
      modifies this, iap, iap.page
      ensures Valid() && (iap.page == old(iap.page) || fresh(iap.page))
      ensures Reply(View(), more) == Updater.FirmwareBody(iap.env, old(View()), fragment)
    {
      hide Iap.Begin, Iap.Write, Iap.Abort, Iap.Commit, ToInt32;
      var ok := OpenSession();
      if !ok {
        return false;
      }
      if |fragment| > 0 {
        var result := iap.Write(fragment[..|fragment| % 0x1_0000]);
        totalNofBytesReceived := ToInt32(totalNofBytesReceived + |fragment|);
        if result != Iap.Ok {
          var _ := iap.Abort();
          return false;
        }
        return true;
      }
      FinishSession();
      more := false;
    }

    /** The last callback of a download. */
    method FinishSession()
      requires Valid()
      modifies this`hasIapSession, this`hasNewFirmware, this`restarted, iap
      ensures Valid() && iap.page == old(iap.page)
      ensures old(hasIapSession) ==> View() == Updater.FirmwareBody(iap.env, old(View()), []).c
    {
      hasIapSession := false;
      if totalNofBytesReceived > 0 {
        var _ := iap.Commit();
        hasNewFirmware := true;
        if autoReboot {
          restarted := true;
        }
      } else {
        var _ := iap.Abort();
      }
    }

    /** `body` + `rest` is the response buffer. */
    method MetadataBody(body: string, rest: string) returns (more: bool)
      requires Valid()
      modifies this`pollingInterval, this`serverFirmwarePath, this`downloadBit, this`fault
      ensures Valid()
      ensures Reply(View(), more) == Updater.MetadataBody(old(View()), body, rest)
    {
      hide ReadInt, ReadString, StorePath;
      more := false;
      var mem := body + rest;
      var interval := ReadInt(mem, INTERVAL);
      if interval == PastEnd {
        fault := true;
        return;
      }
      if interval.Got? {
        if interval.value % WORD != pollingInterval {
          pollingInterval := interval.value % WORD;
        }
      }
      var version := ReadInt(mem, VERSION);
      if version == PastEnd {
        fault := true;
        return;
      }
      if version == Missing {
        return;
      }
      var path := ReadPath(mem);
      if path == PastEnd {
        fault := true;
        return;
      }
      if path == Missing {
        return;
      }
      serverFirmwarePath := path.value;
      if version.value == currentSoftwareVersion {
        return;
      }
      downloadBit := true;
    }

    /** The file name, read into a local buffer and copied from there into an array of the same size. */
    method ReadPath(mem: string) returns (path: Parsed<string>)
      ensures path == match ReadString(mem, FILE, PATH_SIZE)
        case PastEnd => PastEnd
        case Missing => Missing
        case Got(value) => Got(StorePath(value))
    {
      var fileName := new char[PATH_SIZE];
      var result, pastEnd := ParseKeyValueString(mem, FILE, fileName, PATH_SIZE);
      if pastEnd {
        return PastEnd;
      }
      if result != 0 {
        return Missing;
      }
      path := Got(StorePath(Text(fileName[..])));
      ValueIsText(mem, FILE, PATH_SIZE, fileName[..]);
    }
  }
}
