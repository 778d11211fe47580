/**
 * The host-side OTA uploader (ota_uploader/index.ts): the parser of the
 * device `.env` files that picks a device name, and the flow control that
 * publishes firmware chunks when the device reports it is ready, keeping
 * `future` chunks in flight ahead of the acknowledgements.
 */
module OtaUploader {
  import opened Base

  /** `String.prototype.trim` removes WhiteSpace and LineTerminator code points at both ends. */
  predicate IsJsSpace(c: char)
  {
    c == '\t' || c == '\U{000B}' || c == '\U{000C}' || c == ' ' || c == '\U{00A0}' || c == '\U{FEFF}' ||
    c == '\U{1680}' || ('\U{2000}' <= c <= '\U{200A}') || c == '\U{202F}' || c == '\U{205F}' || c == '\U{3000}' ||
    c == '\n' || c == '\r' || c == '\U{2028}' || c == '\U{2029}'
  }

  /** Leading whitespace removed: a suffix of `s` that is empty or starts with a non-space. */
  function TrimStart(s: string): (r: string)
    ensures |r| <= |s| && r == s[|s| - |r|..]
    ensures r == [] || !IsJsSpace(r[0])
    ensures forall k :: 0 <= k < |s| - |r| ==> IsJsSpace(s[k])
    decreases |s|
  {
    if s != [] && IsJsSpace(s[0]) then TrimStart(s[1..]) else s
  }

  /** Trailing whitespace removed: a prefix of `s` that is empty or ends with a non-space. */
  function TrimEnd(s: string): (r: string)
    ensures |r| <= |s| && r == s[..|r|]
    ensures r == [] || !IsJsSpace(r[|r| - 1])
    ensures forall k :: |r| <= k < |s| ==> IsJsSpace(s[k])
    decreases |s|
  {
    if s != [] && IsJsSpace(s[|s| - 1]) then TrimEnd(s[..|s| - 1]) else s
  }

  function Trim(s: string): string
  {
    TrimEnd(TrimStart(s))
  }

  /** `s.split(c)` for a one-character separator: the pieces between occurrences of `c`. */
  function Split(s: string, c: char): (parts: seq<string>)
    ensures |parts| >= 1
    decreases |s|
  {
    if s == [] then [""]
    else if s[0] == c then [""] + Split(s[1..], c)
    else
      var rest := Split(s[1..], c);
      [[s[0]] + rest[0]] + rest[1..]
  }

  /**
   * The first piece of a split is the text up to the first separator (all
   * of `s` when there is none); the other pieces are the split of the text
   * after that separator.
   */
  lemma {:induction false} SplitHead(s: string, c: char)
    ensures var p := Split(s, c);
      c !in p[0] && |p[0]| <= |s| && s[..|p[0]|] == p[0] &&
      (|p| == 1 <==> c !in s) &&
      (|p| == 1 ==> p[0] == s) &&
      (|p| > 1 ==> |p[0]| < |s| && s[|p[0]|] == c && Split(s[|p[0]| + 1..], c) == p[1..])
    decreases |s|
  {
    if s != [] && s[0] != c {
      SplitHead(s[1..], c);
      var rest := Split(s[1..], c);
      assert s[1..][..|rest[0]|] == rest[0];
      assert s[..|rest[0]| + 1] == [s[0]] + s[1..][..|rest[0]|];
      if |rest| > 1 {
        assert s[|rest[0]| + 1 + 1..] == s[1..][|rest[0]| + 1..];
      }
      assert c in s <==> c in s[1..] by {
        assert s == [s[0]] + s[1..];
      }
    } else if s != [] {
      assert s[1..] == s[0 + 1..];
    }
  }

  /** A `.env` line kept by the parser: its trimmed key and trimmed value. */
  function LineEntry(line: string): Option<(string, string)>
  {
    var parts := Split(line, '=');
    if parts[0] != "" && |parts| >= 2 && parts[1] != "" then Some((Trim(parts[0]), Trim(parts[1])))
    else None
  }

  /**
   * What `const [key, value] = line.split("=")` reads: the key is the text
   * before the first '=' (the whole line when there is none), and the value
   * is the text between the first '=' and the second '=' or the end of the
   * line; whatever follows a second '=' is not looked at.
   */
  lemma LineFields(line: string)
    ensures var p := Split(line, '=');
      '=' !in p[0] && |p[0]| <= |line| && line[..|p[0]|] == p[0] && (|p| == 1 <==> '=' !in line) &&
      (|p| > 1 ==>
        var i, v := |p[0]|, p[1];
        i + 1 + |v| <= |line| && line[i] == '=' && '=' !in v && line[i + 1..i + 1 + |v|] == v &&
        (i + 1 + |v| == |line| || line[i + 1 + |v|] == '='))
  {
    SplitHead(line, '=');
    var p := Split(line, '=');
    if |p| > 1 {
      var i := |p[0]|;
      var after := line[i + 1..];
      SplitHead(after, '=');
      assert after[..|p[1]|] == p[1];
      assert line[i + 1..i + 1 + |p[1]|] == after[..|p[1]|];
      if i + 1 + |p[1]| < |line| {
        assert after[|p[1]|] == line[i + 1 + |p[1]|];
      }
    }
  }

  /** The entries of the lines, in order. */
  function Entries(lines: seq<string>): (es: seq<Option<(string, string)>>)
    ensures |es| == |lines| && forall i :: 0 <= i < |lines| ==> es[i] == LineEntry(lines[i])
  {
    seq(|lines|, i requires 0 <= i < |lines| => LineEntry(lines[i]))
  }

  /** The entry sets the key `k`. */
  predicate Sets(e: Option<(string, string)>, k: string)
  {
    e.Some? && e.value.0 == k
  }

  /** The `reduce` over the entries: each kept entry is stored under its key, later ones overwriting. */
  function EnvOf(es: seq<Option<(string, string)>>): map<string, string>
    decreases |es|
  {
    if es == [] then map[]
    else
      var acc := EnvOf(es[..|es| - 1]);
      match es[|es| - 1]
      case Some(kv) => acc[kv.0 := kv.1]
      case None => acc
  }

  /** The parsed `.env` file: its text split at '\n', each line read, then reduced. */
  function ParseEnv(content: string): map<string, string>
  {
    EnvOf(Entries(Split(content, '\n')))
  }

  /**
   * A key is present exactly when some entry sets it, and its value is the
   * one of the last entry that sets it.
   */
  lemma {:induction false} LastLineWins(es: seq<Option<(string, string)>>, k: string)
    ensures k in EnvOf(es) <==> exists i :: 0 <= i < |es| && Sets(es[i], k)
    ensures k in EnvOf(es) ==>
      exists i :: 0 <= i < |es| && Sets(es[i], k) && es[i].value.1 == EnvOf(es)[k] &&
        forall j :: i < j < |es| ==> !Sets(es[j], k)
    decreases |es|
  {
    if es != [] {
      var init := es[..|es| - 1];
      var last := |es| - 1;
      LastLineWins(init, k);
      if Sets(es[last], k) {
        assert EnvOf(es)[k] == es[last].value.1;
      } else {
        assert k in EnvOf(es) <==> k in EnvOf(init);
        if k in EnvOf(init) {
          assert EnvOf(es)[k] == EnvOf(init)[k];
          var i :| 0 <= i < |init| && Sets(init[i], k) && init[i].value.1 == EnvOf(init)[k] &&
            forall j :: i < j < |init| ==> !Sets(init[j], k);
          assert es[i] == init[i];
          forall j | i < j < |es| ensures !Sets(es[j], k) {
            if j < last {
              assert es[j] == init[j];
            }
          }
        }
        if exists i :: 0 <= i < |es| && Sets(es[i], k) {
          var i :| 0 <= i < |es| && Sets(es[i], k);
          assert i < last && init[i] == es[i];
        }
      }
    }
  }

  /** `env.desc ?? env.id ?? f`: only a missing key falls back; an empty value does not. */
  function DeviceName(env: map<string, string>, path: string): (name: string)
  {
    if "desc" in env then env["desc"] else if "id" in env then env["id"] else path
  }

  /**
   * The name shown for a device file: the value of its last `desc` line,
   * else of its last `id` line, else the file's path.
   */
  lemma DeviceNameOfFile(content: string, path: string)
    ensures var es := Entries(Split(content, '\n'));
      var name := DeviceName(ParseEnv(content), path);
      ((exists i :: 0 <= i < |es| && Sets(es[i], "desc")) ==>
        exists i :: 0 <= i < |es| && Sets(es[i], "desc") && es[i].value.1 == name &&
          forall j :: i < j < |es| ==> !Sets(es[j], "desc")) &&
      ((!exists i :: 0 <= i < |es| && Sets(es[i], "desc")) && (exists i :: 0 <= i < |es| && Sets(es[i], "id")) ==>
        exists i :: 0 <= i < |es| && Sets(es[i], "id") && es[i].value.1 == name &&
          forall j :: i < j < |es| ==> !Sets(es[j], "id")) &&
      ((!exists i :: 0 <= i < |es| && Sets(es[i], "desc")) && (!exists i :: 0 <= i < |es| && Sets(es[i], "id")) ==>
        name == path)
  {
    var es := Entries(Split(content, '\n'));
    LastLineWins(es, "desc");
    LastLineWins(es, "id");
  }

  /** Total length of a sequence of chunks. */
  function TotalLength(chunks: seq<seq<bv8>>): nat
    decreases |chunks|
  {
    if chunks == [] then 0 else TotalLength(chunks[..|chunks| - 1]) + |chunks[|chunks| - 1]|
  }

  lemma TotalLengthAppend(chunks: seq<seq<bv8>>, c: seq<bv8>)
    ensures TotalLength(chunks + [c]) == TotalLength(chunks) + |c|
  {
    assert (chunks + [c])[..|chunks|] == chunks;
  }

  /** Size of a read from the firmware file stream. */
  const CHUNK_SIZE: nat := 4096

  /**
   * The uploader. `stream` is what the firmware file stream will still
   * yield, chunk by chunk; `published` is what has been sent to the device.
   * Together they are the file, and `totalBytes` counts the bytes sent.
   */
  class Uploader {
    const future: int
    var readyCnt: int
    var sendCnt: int
    var totalBytes: int
    var stream: seq<seq<bv8>>
    var published: seq<seq<bv8>>
    ghost const file: seq<seq<bv8>>

    ghost predicate Valid()
      reads this
    {
      future == 1 && published + stream == file && totalBytes == TotalLength(published) &&
      forall k :: 0 <= k < |file| ==> 0 < |file[k]| <= CHUNK_SIZE
    }

    /** A fresh uploader for a file read as `chunks`, with nothing sent yet. */
    constructor(chunks: seq<seq<bv8>>)
      requires forall k :: 0 <= k < |chunks| ==> 0 < |chunks[k]| <= CHUNK_SIZE
      ensures Valid() && file == chunks && stream == chunks && published == []
      ensures readyCnt == 0 && sendCnt == 0 && totalBytes == 0
    {
      future := 1;
      readyCnt, sendCnt, totalBytes := 0, 0, 0;
      stream := chunks;
      published := [];
      file := chunks;
    }

    /**
     * `send`: read the next chunk and publish it, adding its length to the
     * byte count. `false` when the read yields nothing (the stream is over and
     * the promise rejects or never settles); nothing changes then.
     */
    method Send() returns (ok: bool)
      requires Valid()
      modifies this
      ensures Valid() && readyCnt == old(readyCnt) && sendCnt == old(sendCnt)
      ensures ok <==> old(stream) != []
      ensures ok ==> stream == old(stream)[1..] && published == old(published) + [old(stream)[0]]
      ensures ok ==> totalBytes == old(totalBytes) + |old(stream)[0]|
      ensures !ok ==> stream == old(stream) && published == old(published) && totalBytes == old(totalBytes)
    {
      if stream == [] {
        return false;
      }
      var buf := stream[0];
      stream := stream[1..];
      TotalLengthAppend(published, buf);
      totalBytes := totalBytes + |buf|;
      published := published + [buf];
      ok := true;
    }

    /**
     * `ready`: one more acknowledgement; then chunks are sent until
     * `sendCnt` is `future` ahead of `readyCnt`. It stops early, with
     * `false`, when the stream runs dry.
     */
    method Ready() returns (ok: bool)
      requires Valid()
      modifies this
      ensures Valid() && readyCnt == old(readyCnt) + 1
      ensures ok ==> sendCnt >= readyCnt + future
      ensures ok && old(sendCnt) <= readyCnt + future ==> sendCnt == readyCnt + future
      ensures ok && old(sendCnt) > readyCnt + future ==> sendCnt == old(sendCnt)
      ensures ok ==> old(sendCnt) <= sendCnt && sendCnt - old(sendCnt) <= |old(stream)|
      ensures ok ==> published == old(published) + old(stream)[..sendCnt - old(sendCnt)]
      ensures ok ==> stream == old(stream)[sendCnt - old(sendCnt)..]
      ensures !ok ==> stream == [] && sendCnt < readyCnt + future + 1 && published == file
      ensures totalBytes == TotalLength(published)
    {
      readyCnt := readyCnt + 1;
      ok := true;
      while sendCnt - future < readyCnt
        invariant Valid() && readyCnt == old(readyCnt) + 1
        invariant old(sendCnt) <= sendCnt
        invariant sendCnt > old(sendCnt) ==> sendCnt <= readyCnt + future
        invariant sendCnt - old(sendCnt) <= |old(stream)|
        invariant published == old(published) + old(stream)[..sendCnt - old(sendCnt)]
        invariant stream == old(stream)[sendCnt - old(sendCnt)..]
        decreases readyCnt + future - sendCnt
      {
        sendCnt := sendCnt + 1;
        ok := Send();
        if !ok {
          return false;
        }
        assert old(stream)[..sendCnt - old(sendCnt)] == old(stream)[..sendCnt - 1 - old(sendCnt)] + [old(stream)[sendCnt - 1 - old(sendCnt)]];
      }
    }
  }
}
