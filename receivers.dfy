/**
 * TLS receivers of an Ingress: the receiver list kept as an annotation,
 * turning each receiver's secret into .crt/.key files under its SSL
 * directory (LoadSecrets), and the host-keyed upsert of Update.
 *
 * JSON encoding and decoding, the Kubernetes API and the filesystem are
 * parameters: `decode`/`encode` stand for the JSON library, a secret is
 * the list of its data keys in the order the map iteration visited them,
 * and a FileSystem says which files exist, which cannot be written and
 * which directories cannot be created.
 */
module Receivers {
  import opened Wrappers
  import opened Text

  const ReceiversKey := "Ingress.receivers"

  type Annotations = map<string, string>

  datatype Receiver = Receiver(host: string, port: int, secret: string, sslDir: string)

  /** Where the certificate and key of one host were written. */
  datatype ReceiverSecrets = ReceiverSecrets(host: string, port: int, keyPath: string, crtPath: string)

  /** ingAnnotations.getReceivers: the receivers annotation, if present. */
  function GetReceivers(ann: Annotations): (r: Option<string>)
    ensures r.Some? <==> ReceiversKey in ann
    ensures r.Some? ==> r.value == ann[ReceiversKey]
  {
    if ReceiversKey in ann then Some(ann[ReceiversKey]) else None
  }

  /* ---------------- secret data keys ---------------- */

  /** What a secret data key stands for: a certificate, a private key, or nothing. */
  datatype KeyKind = CrtFile(base: string) | KeyFile(base: string) | Ignored

  /** A data key counts when it splits at '.' into exactly a base and "crt" or "key". */
  function ClassifyKey(k: string): KeyKind {
    var parts := Split(k, '.');
    if |parts| != 2 then Ignored
    else if parts[1] == "crt" then CrtFile(parts[0])
    else if parts[1] == "key" then KeyFile(parts[0])
    else Ignored
  }

  /** Splitting at '.' gives [base, ext] exactly when the key is base.ext with a dot-free base. */
  lemma SplitTwo(k: string, base: string, ext: string)
    requires '.' !in ext
    ensures Split(k, '.') == [base, ext] <==> '.' !in base && k == base + "." + ext
  {
    assert Join([base, ext], '.') == base + "." + ext by {
      assert [base, ext][1..] == [ext];
    }
    if Split(k, '.') == [base, ext] {
      JoinSplit(k, '.');
      SplitPartsFree(k, '.');
      assert '.' !in Split(k, '.')[0];
    }
    if '.' !in base && k == base + "." + ext {
      SplitJoin([base, ext], '.');
    }
  }

  /** A certificate key is exactly "<base>.crt" and a private key "<base>.key", with no other dot. */
  lemma ClassifyKeyIff(k: string, base: string)
    ensures ClassifyKey(k) == CrtFile(base) <==> '.' !in base && k == base + ".crt"
    ensures ClassifyKey(k) == KeyFile(base) <==> '.' !in base && k == base + ".key"
  {
    SplitTwo(k, base, "crt");
    SplitTwo(k, base, "key");
    var parts := Split(k, '.');
    if |parts| == 2 {
      assert parts == [parts[0], parts[1]];
    }
  }

  /** `fmt.Sprintf("%v/%v.%v", dir, base, ext)`. */
  function SecretPath(dir: string, base: string, ext: string): (p: string)
    ensures p != ""
  {
    dir + "/" + base + "." + ext
  }

  /** The file written for a certificate or key data key is named after that key, in dir. */
  lemma SecretPathNamesKey(dir: string, k: string)
    requires ClassifyKey(k) != Ignored
    ensures SecretPath(dir, ClassifyKey(k).base, if ClassifyKey(k).CrtFile? then "crt" else "key") == dir + "/" + k
  {
    ClassifyKeyIff(k, ClassifyKey(k).base);
  }

  /** The filesystem as LoadSecrets finds it. */
  datatype FileSystem = FileSystem(existing: set<string>, unwritable: set<string>, badDirs: set<string>)

  /** The paths found so far, and the path whose write failed, if any. */
  datatype ScanState = ScanState(crtPath: string, keyPath: string, failed: Option<string>)

  /** One data key: record its path; write the file unless it exists; stop on a failed write. */
  function ScanStep(dir: string, st: ScanState, k: string, fs: FileSystem): ScanState {
    if st.failed.Some? then st
    else
      match ClassifyKey(k)
      case Ignored => st
      case CrtFile(b) =>
        var path := SecretPath(dir, b, "crt");
        ScanState(path, st.keyPath, if path !in fs.existing && path in fs.unwritable then Some(path) else None)
      case KeyFile(b) =>
        var path := SecretPath(dir, b, "key");
        ScanState(st.crtPath, path, if path !in fs.existing && path in fs.unwritable then Some(path) else None)
  }

  function ScanKeys(dir: string, keys: seq<string>, fs: FileSystem): ScanState {
    if keys == [] then ScanState("", "", None)
    else ScanStep(dir, ScanKeys(dir, keys[..|keys| - 1], fs), keys[|keys| - 1], fs)
  }

  /**
   * When no write failed, the certificate path is that of the last
   * certificate key visited, and empty exactly when there is none.
   */
  lemma {:induction false} ScanKeysCrt(dir: string, keys: seq<string>, fs: FileSystem)
    ensures var st := ScanKeys(dir, keys, fs);
      st.failed.None? ==>
        && (st.crtPath == "" <==> forall i :: 0 <= i < |keys| ==> !ClassifyKey(keys[i]).CrtFile?)
        && (st.crtPath != "" ==> exists i :: (0 <= i < |keys| && ClassifyKey(keys[i]).CrtFile?
              && st.crtPath == SecretPath(dir, ClassifyKey(keys[i]).base, "crt")
              && forall j :: i < j < |keys| ==> !ClassifyKey(keys[j]).CrtFile?))
    decreases |keys|
  {
    if keys != [] {
      var init := keys[..|keys| - 1];
      ScanKeysCrt(dir, init, fs);
      assert forall i :: 0 <= i < |init| ==> init[i] == keys[i];
    }
  }

  /** Likewise the private-key path and the last private key visited. */
  lemma {:induction false} ScanKeysKey(dir: string, keys: seq<string>, fs: FileSystem)
    ensures var st := ScanKeys(dir, keys, fs);
      st.failed.None? ==>
        && (st.keyPath == "" <==> forall i :: 0 <= i < |keys| ==> !ClassifyKey(keys[i]).KeyFile?)
        && (st.keyPath != "" ==> exists i :: (0 <= i < |keys| && ClassifyKey(keys[i]).KeyFile?
              && st.keyPath == SecretPath(dir, ClassifyKey(keys[i]).base, "key")
              && forall j :: i < j < |keys| ==> !ClassifyKey(keys[j]).KeyFile?))
    decreases |keys|
  {
    if keys != [] {
      var init := keys[..|keys| - 1];
      ScanKeysKey(dir, init, fs);
      assert forall i :: 0 <= i < |init| ==> init[i] == keys[i];
    }
  }

  /** The outcome of the scan of one receiver's secret. */
  function ScanResult(rcv: Receiver, keys: seq<string>, fs: FileSystem): (r: Result<ReceiverSecrets>)
    ensures r.Ok? ==> r.value.host == rcv.host && r.value.port == rcv.port
    ensures r.Ok? ==> r.value.keyPath != "" && r.value.crtPath != ""
  {
    var st := ScanKeys(rcv.sslDir, keys, fs);
    if st.failed.Some? then Err("cannot write " + st.failed.value)
    else if st.keyPath == "" || st.crtPath == "" then Err(rcv.secret + " only had one of key/crt path.")
    else Ok(ReceiverSecrets(rcv.host, rcv.port, st.keyPath, st.crtPath))
  }

  /**
   * A receiver's secret yields its secrets exactly when it holds both a
   * certificate key and a private key and none of the files to write
   * fails.
   */
  lemma ScanResultOk(rcv: Receiver, keys: seq<string>, fs: FileSystem)
    ensures ScanResult(rcv, keys, fs).Ok? <==>
      && ScanKeys(rcv.sslDir, keys, fs).failed.None?
      && (exists i :: 0 <= i < |keys| && ClassifyKey(keys[i]).CrtFile?)
      && (exists i :: 0 <= i < |keys| && ClassifyKey(keys[i]).KeyFile?)
  {
    ScanKeysCrt(rcv.sslDir, keys, fs);
    ScanKeysKey(rcv.sslDir, keys, fs);
  }

  /** The scan loop of LoadSecrets for one receiver. */
  method ScanSecret(rcv: Receiver, keys: seq<string>, fs: FileSystem) returns (r: Result<ReceiverSecrets>)
    ensures r == ScanResult(rcv, keys, fs)
  {
    var crtPath, keyPath := "", "";
    var i := 0;
    while i < |keys|
      invariant i <= |keys|
      invariant ScanKeys(rcv.sslDir, keys[..i], fs) == ScanState(crtPath, keyPath, None)
    {
      assert keys[..i + 1][..i] == keys[..i];
      var parts := Split(keys[i], '.');
      if |parts| != 2 {
        i := i + 1;
        continue;
      }
      var ext := parts[1];
      var path := SecretPath(rcv.sslDir, parts[0], ext);
      if ext == "crt" {
        crtPath := path;
      } else if ext == "key" {
        keyPath := path;
      } else {
        i := i + 1;
        continue;
      }
      if path in fs.existing {
        i := i + 1;
        continue;
      }
      if path in fs.unwritable {
        ScanStops(rcv.sslDir, keys, i + 1, fs);
        assert keys[..|keys|] == keys;
        return Err("cannot write " + path);
      }
      i := i + 1;
    }
    assert keys[..i] == keys;
    if keyPath == "" || crtPath == "" {
      return Err(rcv.secret + " only had one of key/crt path.");
    }
    return Ok(ReceiverSecrets(rcv.host, rcv.port, keyPath, crtPath));
  }

  /** Once a write has failed, later keys change nothing. */
  lemma {:induction false} ScanStops(dir: string, keys: seq<string>, n: nat, fs: FileSystem)
    requires n <= |keys| && ScanKeys(dir, keys[..n], fs).failed.Some?
    ensures ScanKeys(dir, keys, fs) == ScanKeys(dir, keys[..n], fs)
    decreases |keys| - n
  {
    if n < |keys| {
      assert keys[..n + 1][..n] == keys[..n];
      ScanStops(dir, keys, n + 1, fs);
    } else {
      assert keys[..n] == keys;
    }
  }

  /* ---------------- all receivers ---------------- */

  /**
   * One receiver: create its SSL directory, fetch its secret (the data
   * keys of each secret of the Ingress's namespace, by name), then scan.
   */
  function ReceiverResult(rcv: Receiver, secrets: map<string, seq<string>>, fs: FileSystem): Result<ReceiverSecrets> {
    if rcv.sslDir in fs.badDirs then Err("cannot create " + rcv.sslDir)
    else if rcv.secret !in secrets then Err("secret " + rcv.secret + " not found")
    else ScanResult(rcv, secrets[rcv.secret], fs)
  }

  /** The receivers in order: the first failure aborts, later receivers of a host overwrite. */
  function LoadAll(rcvs: seq<Receiver>, secrets: map<string, seq<string>>, fs: FileSystem): Result<map<string, ReceiverSecrets>> {
    if rcvs == [] then Ok(map[])
    else
      var prev := LoadAll(rcvs[..|rcvs| - 1], secrets, fs);
      var last := rcvs[|rcvs| - 1];
      if prev.Err? then prev
      else
        var r := ReceiverResult(last, secrets, fs);
        if r.Err? then Err(r.error) else Ok(prev.value[last.host := r.value])
  }

  /** LoadSecrets succeeds exactly when every receiver does. */
  lemma {:induction false} LoadAllOk(rcvs: seq<Receiver>, secrets: map<string, seq<string>>, fs: FileSystem)
    ensures LoadAll(rcvs, secrets, fs).Ok? <==> forall i :: 0 <= i < |rcvs| ==> ReceiverResult(rcvs[i], secrets, fs).Ok?
    decreases |rcvs|
  {
    if rcvs != [] {
      var init := rcvs[..|rcvs| - 1];
      LoadAllOk(init, secrets, fs);
      assert forall i :: 0 <= i < |init| ==> init[i] == rcvs[i];
    }
  }

  /**
   * On success the map holds exactly the receivers' hosts, each with
   * both paths recorded under its own name.
   */
  lemma {:induction false} LoadAllHosts(rcvs: seq<Receiver>, secrets: map<string, seq<string>>, fs: FileSystem)
    ensures var r := LoadAll(rcvs, secrets, fs);
      r.Ok? ==> forall h :: (h in r.value <==> exists i :: 0 <= i < |rcvs| && rcvs[i].host == h)
    ensures var r := LoadAll(rcvs, secrets, fs);
      r.Ok? ==> forall h :: h in r.value ==>
                  r.value[h].host == h && r.value[h].keyPath != "" && r.value[h].crtPath != ""
    decreases |rcvs|
  {
    if rcvs != [] {
      var init := rcvs[..|rcvs| - 1];
      LoadAllHosts(init, secrets, fs);
      var r := LoadAll(rcvs, secrets, fs);
      if r.Ok? {
        var last := rcvs[|rcvs| - 1];
        forall h
          ensures h in r.value <==> exists i :: 0 <= i < |rcvs| && rcvs[i].host == h
        {
          if h in r.value && h != last.host {
            var i :| 0 <= i < |init| && init[i].host == h;
            assert rcvs[i].host == h;
          }
          if exists i :: 0 <= i < |rcvs| && rcvs[i].host == h {
            var i :| 0 <= i < |rcvs| && rcvs[i].host == h;
            if i < |init| {
              assert init[i].host == h;
            }
          }
        }
      }
    }
  }

  /** On success a host maps to the secrets of the last receiver with that host. */
  lemma {:induction false} LoadAllLastWins(rcvs: seq<Receiver>, secrets: map<string, seq<string>>, fs: FileSystem, i: nat)
    requires i < |rcvs| && LoadAll(rcvs, secrets, fs).Ok?
    requires forall j :: i < j < |rcvs| ==> rcvs[j].host != rcvs[i].host
    ensures ReceiverResult(rcvs[i], secrets, fs).Ok?
    ensures rcvs[i].host in LoadAll(rcvs, secrets, fs).value
    ensures LoadAll(rcvs, secrets, fs).value[rcvs[i].host] == ReceiverResult(rcvs[i], secrets, fs).value
    decreases |rcvs|
  {
    LoadAllOk(rcvs, secrets, fs);
    var init := rcvs[..|rcvs| - 1];
    if i < |init| {
      assert init[i] == rcvs[i];
      LoadAllLastWins(init, secrets, fs, i);
    }
  }

  /** LoadSecrets: the receivers annotation, decoded, turned into files and a map by host. */
  function LoadSecretsSpec(ann: Annotations, decode: string -> Option<seq<Receiver>>,
                           secrets: map<string, seq<string>>, fs: FileSystem): Result<map<string, ReceiverSecrets>> {
    match GetReceivers(ann)
    case None => Ok(map[])
    case Some(text) =>
      match decode(text)
      case None => Err("cannot decode " + ReceiversKey)
      case Some(rcvs) => LoadAll(rcvs, secrets, fs)
  }

  /** Without a receivers annotation there is nothing to load, and no error. */
  lemma NoReceiversNoSecrets(ann: Annotations, decode: string -> Option<seq<Receiver>>,
                             secrets: map<string, seq<string>>, fs: FileSystem)
    requires ReceiversKey !in ann
    ensures LoadSecretsSpec(ann, decode, secrets, fs) == Ok(map[])
  {
  }

  /** The body of LoadSecrets's loop for one receiver: directory, secret, scan. */
  method LoadReceiver(rcv: Receiver, secrets: map<string, seq<string>>, fs: FileSystem)
    returns (r: Result<ReceiverSecrets>)
    ensures r == ReceiverResult(rcv, secrets, fs)
  {
    if rcv.sslDir in fs.badDirs {
      return Err("cannot create " + rcv.sslDir);
    }
    if rcv.secret !in secrets {
      return Err("secret " + rcv.secret + " not found");
    }
    r := ScanSecret(rcv, secrets[rcv.secret], fs);
  }

  /** LoadSecrets, a receiver at a time. */
  method LoadSecrets(ann: Annotations, decode: string -> Option<seq<Receiver>>,
                     secrets: map<string, seq<string>>, fs: FileSystem)
    returns (r: Result<map<string, ReceiverSecrets>>)
    ensures r == LoadSecretsSpec(ann, decode, secrets, fs)
  {
    var receiverSecrets: map<string, ReceiverSecrets> := map[];
    var rcvs: seq<Receiver> := [];
    var text := GetReceivers(ann);
    if text.Some? {
      var decoded := decode(text.value);
      if decoded.None? {
        return Err("cannot decode " + ReceiversKey);
      }
      rcvs := decoded.value;
    }
    var i := 0;
    while i < |rcvs|
      invariant i <= |rcvs|
      invariant LoadAll(rcvs[..i], secrets, fs) == Ok(receiverSecrets)
    {
      assert rcvs[..i + 1][..i] == rcvs[..i];
      var rcv := rcvs[i];
      var rs := LoadReceiver(rcv, secrets, fs);
      if rs.Err? {
        LoadAllStops(rcvs, i + 1, secrets, fs);
        return Err(rs.error);
      }
      receiverSecrets := receiverSecrets[rcv.host := rs.value];
      i := i + 1;
    }
    assert rcvs[..i] == rcvs;
    return Ok(receiverSecrets);
  }

  /** Once a receiver has failed, the later ones change nothing. */
  lemma {:induction false} LoadAllStops(rcvs: seq<Receiver>, n: nat, secrets: map<string, seq<string>>, fs: FileSystem)
    requires n <= |rcvs| && LoadAll(rcvs[..n], secrets, fs).Err?
    ensures LoadAll(rcvs, secrets, fs) == LoadAll(rcvs[..n], secrets, fs)
    decreases |rcvs| - n
  {
    if n < |rcvs| {
      assert rcvs[..n + 1][..n] == rcvs[..n];
      LoadAllStops(rcvs, n + 1, secrets, fs);
    } else {
      assert rcvs[..n] == rcvs;
    }
  }

  /* ---------------- Update ---------------- */

  /**
   * The merge of Update: every receiver of rec's host is replaced by rec;
   * when there is none, rec is appended.
   */
  function Upserted(rcvs: seq<Receiver>, rec: Receiver): seq<Receiver> {
    if exists i :: 0 <= i < |rcvs| && rcvs[i].host == rec.host then
      seq(|rcvs|, i requires 0 <= i < |rcvs| => if rcvs[i].host == rec.host then rec else rcvs[i])
    else rcvs + [rec]
  }

  /**
   * What the merge promises: rec's host is present with rec for every one
   * of its entries; the other entries are kept, in order, at their
   * places; the list grows by one exactly when the host was new, and then
   * rec is at the end.
   */
  lemma UpsertedSpec(rcvs: seq<Receiver>, rec: Receiver)
    ensures var m := Upserted(rcvs, rec);
      var isNew := forall i :: 0 <= i < |rcvs| ==> rcvs[i].host != rec.host;
      && (isNew ==> m == rcvs + [rec])
      && (!isNew ==> |m| == |rcvs|)
      && (forall i :: 0 <= i < |rcvs| && rcvs[i].host != rec.host ==> m[i] == rcvs[i])
      && (forall i :: 0 <= i < |rcvs| && rcvs[i].host == rec.host ==> m[i] == rec)
      && (forall i :: 0 <= i < |m| && m[i].host == rec.host ==> m[i] == rec)
      && rec in m
  {
    var m := Upserted(rcvs, rec);
    if exists i :: 0 <= i < |rcvs| && rcvs[i].host == rec.host {
      var i :| 0 <= i < |rcvs| && rcvs[i].host == rec.host;
      assert m[i] == rec;
    } else {
      assert m[|rcvs|] == rec;
    }
  }

  /** Merging the same receiver twice gives the same list as merging it once. */
  lemma UpsertedIdempotent(rcvs: seq<Receiver>, rec: Receiver)
    ensures Upserted(Upserted(rcvs, rec), rec) == Upserted(rcvs, rec)
  {
    var m := Upserted(rcvs, rec);
    UpsertedSpec(rcvs, rec);
    var i :| 0 <= i < |m| && m[i] == rec;
    assert m[i].host == rec.host;
  }

  /** The loop of Update, replacing entries in place and appending when the host is new. */
  method MergeReceiver(rcvs: seq<Receiver>, rec: Receiver) returns (receivers: seq<Receiver>)
    ensures receivers == Upserted(rcvs, rec)
  {
    receivers := rcvs;
    var newReceiver := true;
    var i := 0;
    while i < |receivers|
      invariant i <= |receivers| == |rcvs|
      invariant forall j :: 0 <= j < i ==> receivers[j] == (if rcvs[j].host == rec.host then rec else rcvs[j])
      invariant forall j :: i <= j < |rcvs| ==> receivers[j] == rcvs[j]
      invariant newReceiver <==> forall j :: 0 <= j < i ==> rcvs[j].host != rec.host
    {
      if receivers[i].host == rec.host {
        receivers := receivers[i := rec];
        newReceiver := false;
      }
      i := i + 1;
    }
    if newReceiver {
      receivers := receivers + [rec];
      assert receivers[..|rcvs|] == rcvs;
    }
  }

  /** The annotations of a fetched Ingress: None is a nil map, which reads as empty. */
  function AnnotationsOf(ann: Option<Annotations>): (m: Annotations)
    ensures ann.None? ==> m == map[]
    ensures ann.Some? ==> m == ann.value
  {
    if ann.Some? then ann.value else map[]
  }

  /**
   * Update on the annotations of the fetched Ingress: decode the receivers
   * (none when the annotation is absent), merge rec, and store the
   * encoded list back under the receivers key, in a fresh map when the
   * Ingress had none.
   */
  function UpdateSpec(ann: Option<Annotations>, rec: Receiver, decode: string -> Option<seq<Receiver>>,
                      encode: seq<Receiver> -> string): Result<Annotations> {
    var cur := AnnotationsOf(ann);
    var current := if ReceiversKey in cur then decode(cur[ReceiversKey]) else Some([]);
    if current.None? then Err("cannot decode " + ReceiversKey)
    else Ok(cur[ReceiversKey := encode(Upserted(current.value, rec))])
  }

  /**
   * Update fails exactly when the receivers annotation is present and
   * does not decode. Otherwise reading the receivers annotation back
   * gives the encoded merge of the decoded list (the empty list when the
   * annotation is absent), and every other annotation is unchanged.
   */
  lemma UpdateWritesBack(ann: Option<Annotations>, rec: Receiver, decode: string -> Option<seq<Receiver>>,
                         encode: seq<Receiver> -> string)
    ensures var r := UpdateSpec(ann, rec, decode, encode);
      var cur := AnnotationsOf(ann);
      && (r.Err? <==> ReceiversKey in cur && decode(cur[ReceiversKey]).None?)
      && (r.Ok? ==>
            && GetReceivers(r.value)
               == Some(encode(Upserted(if ReceiversKey in cur then decode(cur[ReceiversKey]).value else [], rec)))
            && (forall k :: k != ReceiversKey ==> (k in r.value <==> k in cur))
            && (forall k :: k in cur && k != ReceiversKey ==> r.value[k] == cur[k]))
  {
  }

  /** What Update as written comes to: an outcome, or a write to a nil map. */
  datatype UpdateOutcome = Completed(result: Result<Annotations>) | NilMapPanic

  /**
   * Update as written: it stores the encoded list into the fetched
   * Ingress's annotations without making a map when there is none.
   */
  function UpdateAsWritten(ann: Option<Annotations>, rec: Receiver, decode: string -> Option<seq<Receiver>>,
                           encode: seq<Receiver> -> string): UpdateOutcome {
    if ann.None? then NilMapPanic else Completed(UpdateSpec(ann, rec, decode, encode))
  }

  /**
   * Update as written writes to a nil map exactly when the fetched Ingress
   * has no annotations, and otherwise agrees with Update; on an Ingress
   * with no annotations Update instead stores the one-receiver list.
   */
  lemma UpdateNilAnnotationsPanics(ann: Option<Annotations>, rec: Receiver, decode: string -> Option<seq<Receiver>>,
                                   encode: seq<Receiver> -> string)
    ensures UpdateAsWritten(ann, rec, decode, encode) == NilMapPanic <==> ann.None?
    ensures ann.Some? ==> UpdateAsWritten(ann, rec, decode, encode) == Completed(UpdateSpec(ann, rec, decode, encode))
    ensures ann.None? ==> UpdateSpec(ann, rec, decode, encode) == Ok(map[ReceiversKey := encode([rec])])
  {
    if ann.None? {
      UpsertedSpec([], rec);
      assert Upserted([], rec) == [rec];
    }
  }

  /** Update, with the merge loop; a missing annotation map is made before the write. */
  method Update(ann: Option<Annotations>, rec: Receiver, decode: string -> Option<seq<Receiver>>,
                encode: seq<Receiver> -> string) returns (r: Result<Annotations>)
    ensures r == UpdateSpec(ann, rec, decode, encode)
  {
    var receivers: seq<Receiver> := [];
    var text := if ann.Some? then GetReceivers(ann.value) else None;
    if text.Some? {
      var decoded := decode(text.value);
      if decoded.None? {
        return Err("cannot decode " + ReceiversKey);
      }
      receivers := decoded.value;
    }
    receivers := MergeReceiver(receivers, rec);
    var annotations := if ann.Some? then ann.value else map[];
    return Ok(annotations[ReceiversKey := encode(receivers)]);
  }
}
