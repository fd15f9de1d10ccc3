/** Both ends of a download as objects: the web app's downloader, and the storage process that writes the files. */
module Downloads {
  import opened Basics
  import opened DownloadFraming

  // toLatin1: characters outside Latin-1 become question marks
  function ToLatin1(s: string): (r: Bytes)
    ensures |r| == |s|
  {
    seq(|s|, i requires 0 <= i < |s| => if s[i] as int < 256 then s[i] as int else 0x3F)
  }

  function FromLatin1(b: Bytes): (s: string)
    ensures |s| == |b|
  {
    seq(|b|, i requires 0 <= i < |b| => b[i] as char)
  }

  /** A name survives as Latin-1 exactly if it is Latin-1; what is lost is shown by question marks. */
  lemma Latin1RoundTrip(s: string, b: Bytes)
    ensures FromLatin1(ToLatin1(s)) == s <==> forall c | c in s :: c as int < 256
    ensures forall i | 0 <= i < |s| && FromLatin1(ToLatin1(s))[i] != s[i] :: FromLatin1(ToLatin1(s))[i] == '?'
    ensures ToLatin1(FromLatin1(b)) == b
  {
    var r := FromLatin1(ToLatin1(s));
    if r == s {
      forall c | c in s ensures c as int < 256 {
        var i :| 0 <= i < |s| && s[i] == c;
        assert r[i] == s[i];
      }
    } else {
      var i :| 0 <= i < |s| && r[i] != s[i];
      assert s[i] in s;
    }
  }

  // Names: what QFileInfo takes for the parts of a path

  function LastIndexOf(s: string, c: char): (i: int)
    ensures -1 <= i < |s| && (i >= 0 ==> s[i] == c) && forall j | i < j < |s| :: s[j] != c
  {
    if s == "" then -1 else if s[|s| - 1] == c then |s| - 1 else LastIndexOf(s[..|s| - 1], c)
  }

  function LastPart(path: string): string {
    path[LastIndexOf(path, '/') + 1..]
  }

  function CompleteBaseName(path: string): string {
    var file := LastPart(path);
    if LastIndexOf(file, '.') == -1 then file else file[..LastIndexOf(file, '.')]
  }

  function Suffix(path: string): string {
    var file := LastPart(path);
    if LastIndexOf(file, '.') == -1 then "" else file[LastIndexOf(file, '.') + 1..]
  }

  /** The name under which a download from this path is sent. */
  function FileName(path: string): (name: string)
    ensures name != ""
  {
    var baseName, suffix := CompleteBaseName(path), Suffix(path);
    (if baseName == "" then "unknown" else baseName) + (if suffix == "" then "" else "." + suffix)
  }

  /** The only dot is the first character. */
  predicate HiddenFile(file: string) {
    file != "" && file[0] == '.' && '.' !in file[1..]
  }

  /** The two parts are the file, split at its last dot. */
  lemma PartsOfFile(path: string)
    ensures var file, baseName, suffix := LastPart(path), CompleteBaseName(path), Suffix(path);
            && '/' !in file && '.' !in suffix
            && (if '.' in file then file == baseName + "." + suffix else file == baseName && suffix == "")
  {
    var file := LastPart(path);
    var dot := LastIndexOf(file, '.');
    if dot >= 0 {
      assert file == file[..dot] + [file[dot]] + file[dot + 1..];
    }
  }

  /**
    * The name is the last part of the path, but for three cases: an empty name becomes "unknown", a name whose only dot
    * comes first gets "unknown" in front of it, and a dot at the end is dropped.
    */
  lemma FileNameCases(path: string)
    ensures var file := LastPart(path);
            && (file == "" || file == "." ==> FileName(path) == "unknown")
            && (HiddenFile(file) && file != "." ==> FileName(path) == "unknown" + file)
            && (|file| > 1 && file[|file| - 1] == '.' ==> FileName(path) == file[..|file| - 1])
            && (file != "" && !HiddenFile(file) && file[|file| - 1] != '.' ==> FileName(path) == file)
  {
    hide LastPart, CompleteBaseName, Suffix;
    PartsOfFile(path);
    var file, baseName, suffix := LastPart(path), CompleteBaseName(path), Suffix(path);
    if '.' in file {
      assert file[|baseName|] == '.' && file[..|baseName|] == baseName && file[|baseName| + 1..] == suffix;
      assert suffix == "" <==> file[|file| - 1] == '.';
      assert baseName == "" ==> file[1..] == suffix;
      assert baseName != "" && HiddenFile(file) ==> file[1..][|baseName| - 1] == '.';
    }
  }

  /** A dot is dropped at the end, and what is left ends in another dot or has its only dot first: "a..", ".a.". */
  predicate DotsAtEnd(file: string) {
    && |file| > 1 && file[|file| - 1] == '.'
    && var left := file[..|file| - 1];
    left[|left| - 1] == '.' || HiddenFile(left)
  }

  /** Choosing the name again, as the receiving end does, changes nothing, but for those file names. */
  lemma FileNameIsStable(path: string)
    ensures FileName(FileName(path)) == FileName(path) <==> !DotsAtEnd(LastPart(path))
  {
    hide LastPart, FileName;
    var file, name := LastPart(path), FileName(path);
    PartsOfFile(path);
    FileNameCases(path);
    NoSeparator(name);
    FileNameCases(name);
  }

  lemma NoSeparator(name: string)
    requires '/' !in name
    ensures LastPart(name) == name
  {
    assert LastIndexOf(name, '/') == -1;
  }

  class NetworkReply {
    const failed: bool  // error() at construction
    var buffer: Bytes

    constructor (failed: bool, available: Bytes)
      ensures this.failed == failed && buffer == available
    {
      this.failed, buffer := failed, available;
    }

    method ReadAll() returns (data: Bytes)
      modifies this
      ensures data == old(buffer) && buffer == []
    {
      data, buffer := buffer, [];
    }
  }

  /** The process of one web app: the static request counter, and the pipe its messages go to. */
  class WebApp {
    const id: int
    var reqIds: int
    var packets: seq<Packet>

    constructor (id: int)
      ensures this.id == id && reqIds == 0 && packets == []
    {
      this.id, reqIds, packets := id, 0, [];
    }

    method SendDownloadRequest(reqId: int, data: Bytes)
      modifies this`packets
      ensures packets == old(packets) + [Packet(id, reqId, data)]
    {
      packets := packets + [Packet(id, reqId, data)];
    }
  }

  class OpDownloader {
    const app: WebApp
    const reply: NetworkReply
    const reqId: int
    var sent: bool

    /** `path` is the file name that the reply's header gives, or else the path of its URL. */
    constructor (app: WebApp, reply: NetworkReply, path: string)
      modifies app, reply
      ensures this.app == app && this.reply == reply && sent == !reply.failed
      ensures reqId == old(app.reqIds) && app.reqIds == old(app.reqIds) + 1
      ensures reply.failed ==> app.packets == old(app.packets) && reply.buffer == old(reply.buffer)
      ensures !reply.failed ==> reply.buffer == []
      ensures !reply.failed ==>
                app.packets == old(app.packets)
                               + [Packet(app.id, reqId, ToLatin1(FileName(path)))]
                               + Chunk((app.id, reqId), old(reply.buffer))
    {
      this.app, this.reply, this.reqId, this.sent := app, reply, app.reqIds, false;
      new;
      app.reqIds := app.reqIds + 1;
      Init(path);
    }

    method Init(path: string)
      requires !sent
      modifies this`sent, app`packets, reply
      ensures sent == !reply.failed
      ensures reply.failed ==> app.packets == old(app.packets) && reply.buffer == old(reply.buffer)
      ensures !reply.failed ==> reply.buffer == []
      ensures !reply.failed ==>
                app.packets == old(app.packets)
                               + [Packet(app.id, reqId, ToLatin1(FileName(path)))]
                               + Chunk((app.id, reqId), old(reply.buffer))
    {
      var filename := GetFileName(path);
      if reply.failed {
        Finished();
        assert app.packets == old(app.packets) + [];
      } else {
        app.SendDownloadRequest(reqId, ToLatin1(filename));
        sent := true;
        ghost var begun := app.packets;
        DownloadReadyRead();
        assert app.packets == begun + Chunk((app.id, reqId), old(reply.buffer));
      }
    }

    method GetFileName(path: string) returns (name: string)
      ensures name == FileName(path)
    {
      var baseName, endName := CompleteBaseName(path), Suffix(path);
      if baseName == "" {
        baseName := "unknown";
      }
      if endName != "" {
        endName := "." + endName;
      }
      name := baseName + endName;
    }

    method DownloadReadyRead()
      modifies app`packets, reply
      ensures reply.buffer == []
      ensures app.packets == old(app.packets) + Chunk((app.id, reqId), old(reply.buffer))
    {
      var data := reply.ReadAll();
      if |data| > 0 {
        app.SendDownloadRequest(reqId, data);
      }
    }

    method Finished()
      modifies app`packets
      ensures app.packets == old(app.packets) + if sent then [Packet(app.id, reqId, [])] else []
    {
      if sent {
        app.SendDownloadRequest(reqId, []);
      }
    }
  }

  class QFile {
    const name: Bytes
    var contents: Bytes
    var isOpen: bool

    constructor (name: Bytes)
      ensures this.name == name && contents == [] && isOpen
    {
      this.name, contents, isOpen := name, [], true;
    }
  }

  class Storage {
    const decode: Decoder
    var writeQueue: map<Key, QFile>

    ghost predicate Valid()
      reads this
    {
      forall j, k | j in writeQueue && k in writeQueue && writeQueue[j] == writeQueue[k] :: j == k
    }

    ghost function Files(): map<Key, File>
      reads this, writeQueue.Values
    {
      map k | k in writeQueue :: File(writeQueue[k].name, writeQueue[k].contents, writeQueue[k].isOpen)
    }

    constructor (decode: Decoder)
      ensures this.decode == decode && Valid() && Files() == map[]
    {
      this.decode, writeQueue := decode, map[];
    }

    method WriteFile(p: Packet)
      requires Valid()
      modifies this, writeQueue.Values
      ensures Valid() && fresh(writeQueue.Values - old(writeQueue.Values))
      ensures Files() == DownloadFraming.WriteFile(decode, old(Files()), p)
    {
      var id := (p.webapp, p.reqId);
      ghost var before := Files();
      if id !in writeQueue {
        var file := new QFile(decode(p.data));
        writeQueue := writeQueue[id := file];
      } else {
        var file := writeQueue[id];
        if |p.data| > 0 {
          if file.isOpen {
            file.contents := file.contents + p.data;
          }
        } else {
          file.isOpen := false;
        }
        assert forall k | k in writeQueue && k != id :: writeQueue[k] != file;
      }
    }

    /** Whatever arrives, in the order it arrives: the files are those that Receive describes. */
    method Serve(packets: seq<Packet>)
      requires Valid() && Files() == map[]
      modifies this, writeQueue.Values
      ensures Valid() && Files() == Receive(decode, packets)
    {
      for i := 0 to |packets|
        invariant Valid() && Files() == Receive(decode, packets[..i])
        invariant fresh(writeQueue.Values - old(writeQueue.Values))
      {
        WriteFile(packets[i]);
        assert packets[..i + 1][..i] == packets[..i];
      }
      assert packets[..|packets|] == packets;
    }
  }
}
