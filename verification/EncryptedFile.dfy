/**
 The `encrypt-file` and `decrypt-file` jobs of electron/worker-tasks.js on a disk on which
 every operation may fail half-way. The cipher and the key derivation are parameters.

 `trace` records every state the disk goes through, so what is proved about all of them also
 holds when the worker is terminated between two operations.
 */
module EncryptedFile {

  import opened Wrappers

  newtype byte = x: int | 0 <= x < 256

  type Bytes = seq<byte>

  type Files = map<string, Bytes>

  const IV_BYTES: nat := 16
  const TAG_BYTES: nat := 16

  // ---------------------------------------------------------------- the container

  /** An authenticated cipher: `seal` gives the ciphertext and the tag. */
  datatype Aead = Aead(
    derive: (string, string) -> Bytes,
    seal: (Bytes, Bytes, Bytes) -> (Bytes, Bytes),
    unseal: (Bytes, Bytes, Bytes, Bytes) -> Option<Bytes>)
  {
    /** Unsealing succeeds exactly on what sealing produces; tags have their fixed length. */
    ghost predicate Correct() {
      && (forall key, iv, plain :: |seal(key, iv, plain).1| == TAG_BYTES)
      && (forall key, iv, tag, ct, plain ::
            unseal(key, iv, tag, ct) == Some(plain) <==> seal(key, iv, plain) == (ct, tag))
    }
  }

  /** A missing or empty salt stands for the built-in one. */
  function Salt(salt: string): string { if salt == "" then "mrrms" else salt }

  function Encode(a: Aead, password: string, salt: string, iv: Bytes, plain: Bytes): Bytes {
    var sealed := a.seal(a.derive(password, Salt(salt)), iv, plain);
    iv + sealed.1 + sealed.0
  }

  /** None for a file that is too short or fails authentication. */
  function Decode(a: Aead, password: string, salt: string, data: Bytes): Option<Bytes> {
    if |data| < IV_BYTES + TAG_BYTES then None
    else a.unseal(a.derive(password, Salt(salt)), data[..IV_BYTES],
                  data[IV_BYTES..IV_BYTES + TAG_BYTES], data[IV_BYTES + TAG_BYTES..])
  }

  /** Decoding undoes encoding for every plaintext, the empty one included. */
  lemma DecodeUndoesEncode(a: Aead, password: string, salt: string, iv: Bytes, plain: Bytes)
    requires a.Correct() && |iv| == IV_BYTES
    ensures Decode(a, password, salt, Encode(a, password, salt, iv, plain)) == Some(plain)
  {
    var sealed := a.seal(a.derive(password, Salt(salt)), iv, plain);
    var data := Encode(a, password, salt, iv, plain);
    assert data[..IV_BYTES] == iv;
    assert data[IV_BYTES..IV_BYTES + TAG_BYTES] == sealed.1;
    assert data[IV_BYTES + TAG_BYTES..] == sealed.0;
  }

  /** A file is accepted exactly when it is, byte for byte, an encoding under this password of
      what it decodes to: no altered byte and no other tag position goes unnoticed. */
  lemma AcceptedIffEncoded(a: Aead, password: string, salt: string, data: Bytes, plain: Bytes)
    requires a.Correct()
    ensures Decode(a, password, salt, data) == Some(plain)
            <==> |data| >= IV_BYTES && data == Encode(a, password, salt, data[..IV_BYTES], plain)
  {
    var key := a.derive(password, Salt(salt));
    if |data| >= IV_BYTES {
      var iv := data[..IV_BYTES];
      if data == Encode(a, password, salt, iv, plain) {
        DecodeUndoesEncode(a, password, salt, iv, plain);
      }
      if Decode(a, password, salt, data) == Some(plain) {
        var tag, ct := data[IV_BYTES..IV_BYTES + TAG_BYTES], data[IV_BYTES + TAG_BYTES..];
        assert a.unseal(key, iv, tag, ct) == Some(plain);
        assert data == iv + tag + ct;
      }
    }
  }

  /** The layout of a container and the key it is sealed under: the initialisation vector, the
      tag and the ciphertext under the key that is derived from the password and the given salt,
      or the built-in salt "mrrms" when none or an empty one is given. */
  lemma ContainerLayout(a: Aead, password: string, salt: string, iv: Bytes, plain: Bytes)
    requires a.Correct() && |iv| == 16
    ensures var data := Encode(a, password, salt, iv, plain);
            var key := if salt == "" then a.derive(password, "mrrms") else a.derive(password, salt);
            |data| >= 32 && data[..16] == iv && (data[32..], data[16..32]) == a.seal(key, iv, plain)
  {
    var sealed := a.seal(a.derive(password, Salt(salt)), iv, plain);
    assert Encode(a, password, salt, iv, plain) == iv + sealed.1 + sealed.0;
  }

  /** A file opens exactly when its three parts are what the cipher makes of the plaintext under
      that key; anything shorter than 32 bytes does not open. */
  lemma OpensIff(a: Aead, password: string, salt: string, data: Bytes, plain: Bytes)
    requires a.Correct()
    ensures var key := if salt == "" then a.derive(password, "mrrms") else a.derive(password, salt);
            Decode(a, password, salt, data) == Some(plain)
            <==> |data| >= 32 && a.seal(key, data[..16], plain) == (data[32..], data[16..32])
  {}

  // ---------------------------------------------------------------- the disk

  /** The states agree with `base` on every file but `path`. */
  ghost predicate OnlyTouches(states: seq<Files>, base: Files, path: string) {
    forall i :: 0 <= i < |states| ==> states[i] - {path} == base - {path}
  }

  class Disk {
    var files: Files
    const reliable: bool        // a reliable disk never fails an operation that can succeed
    ghost var trace: seq<Files>

    constructor (files: Files, reliable: bool)
      ensures this.files == files && this.reliable == reliable && trace == [files]
    {
      this.files, this.reliable, this.trace := files, reliable, [files];
    }

    /** Writes a whole file. */
    method Put(path: string, data: Bytes)
      modifies this
      ensures files == old(files)[path := data] && trace == old(trace) + [files]
    {
      files := files[path := data];
      trace := trace + [files];
    }

    /** Streams `data` into a file chunk by chunk; may stop after any part of it. */
    method Stream(path: string, data: Bytes, append: bool) returns (ok: bool)
      modifies this
      ensures old(trace) <= trace && OnlyTouches(trace[|old(trace)|..], old(files), path)
      ensures files - {path} == old(files) - {path}
      ensures ok ==> files == old(files)[path := (if append && path in old(files) then old(files)[path] else []) + data]
      ensures reliable ==> ok
    {
      var canOpen: bool := *;
      if !canOpen && !reliable { return false; }
      var start := if append && path in files then files[path] else [];
      Put(path, start);
      assert start + data[..0] == start;
      var done := 0;
      while done < |data|
        invariant 0 <= done <= |data|
        invariant files == old(files)[path := start + data[..done]]
        invariant old(trace) <= trace && OnlyTouches(trace[|old(trace)|..], old(files), path)
      {
        var written: bool := *;
        if !written && !reliable { return false; }
        var next :| done < next <= |data|;
        assert start + data[..next] == start + data[..done] + data[done..next];
        ghost var before := trace;
        Put(path, files[path] + data[done..next]);
        assert trace[|old(trace)|..] == before[|old(trace)|..] + [files];
        assert files - {path} == old(files) - {path};
        done := next;
      }
      assert data[..done] == data;
      return true;
    }

    /** Deletes a file if it can; a failure is swallowed. */
    method RemoveQuiet(path: string)
      modifies this
      ensures files == old(files) || files == old(files) - {path}
      ensures reliable ==> files == old(files) - {path}
      ensures trace == old(trace) + [files]
    {
      var ok: bool := *;
      if ok || reliable { files := files - {path}; }
      trace := trace + [files];
    }

    /** Renames a file over the target, all or nothing. */
    method Rename(source: string, target: string) returns (ok: bool)
      requires source != target
      modifies this
      ensures ok ==> source in old(files) && files == (old(files) - {source})[target := old(files)[source]]
      ensures !ok ==> files == old(files)
      ensures reliable && source in old(files) ==> ok
      ensures trace == old(trace) + [files]
    {
      ok := *;
      if source !in files { ok := false; } else if reliable { ok := true; }
      if ok { files := (files - {source})[target := files[source]]; }
      trace := trace + [files];
    }

    /** Reads a whole file, if it is there and can be read. */
    method Read(path: string) returns (r: Option<Bytes>)
      ensures r.Some? ==> path in files && r.value == files[path]
      ensures reliable && path in files ==> r.Some?
    {
      var ok: bool := *;
      if path in files && (ok || reliable) { return Some(files[path]); }
      return None;
    }
  }

  // ---------------------------------------------------------------- the jobs

  datatype Stage = Input | Length | Cipher | Header | Body | Rename | Stat

  datatype Outcome = Done(size: nat) | Failed(at: Stage)

  /** What a job is about: the files before it, its output and temporary files, the complete
      new output if there is one to be had, the temporary file that is renamed, and where its
      part of the trace starts. */
  datatype Job = Job(
    before: Files,
    output: string,
    temps: set<string>,
    complete: Option<Bytes>,
    final: string,
    from: nat)
  {
    ghost predicate WellFormed() { final in temps && output !in temps }

    /** The output is what it was before the job, missing or with its old bytes. */
    ghost predicate AsBefore(s: Files) {
      (output in s <==> output in before) && (output in s ==> s[output] == before[output])
    }

    /** The output is absent, as before, or complete, and no other file is touched. Without a
        complete new output it is as before and nothing else. */
    ghost predicate Safe(s: Files) {
      && (complete.None? ==> AsBefore(s))
      && (output in s ==> complete == Some(s[output]) || (output in before && s[output] == before[output]))
      && s - ({output} + temps) == before - ({output} + temps)
    }

    /** While the old output is gone and the new one is not there, the new one is in `final`. */
    ghost predicate Recoverable(s: Files) {
      output in before && output !in s ==> final in s && complete == Some(s[final])
    }

    ghost predicate AllSafe(trace: seq<Files>) {
      forall i :: from <= i < |trace| ==> Safe(trace[i])
    }

    ghost predicate AllRecoverable(trace: seq<Files>) {
      forall i :: from <= i < |trace| ==> Recoverable(trace[i])
    }

    /** So far only temporary files have been written. */
    ghost predicate OnlyTemps(s: Files) { s - temps == before - temps }
  }

  lemma TempState(j: Job, s: Files, base: Files, path: string)
    requires j.WellFormed() && path in j.temps
    requires j.OnlyTemps(base) && s - {path} == base - {path}
    ensures j.OnlyTemps(s) && j.Safe(s) && j.Recoverable(s)
  {
    assert s - j.temps == (s - {path}) - j.temps;
    assert base - j.temps == (base - {path}) - j.temps;
    OnlyTempsIsSafe(j, s);
  }

  lemma OnlyTempsIsSafe(j: Job, s: Files)
    requires j.WellFormed() && j.OnlyTemps(s)
    ensures j.Safe(s) && j.Recoverable(s)
    ensures j.AsBefore(s)
  {
    assert j.output in s <==> j.output in s - j.temps;
    assert j.output in j.before <==> j.output in j.before - j.temps;
    if j.output in s {
      assert s[j.output] == (s - j.temps)[j.output] == (j.before - j.temps)[j.output] == j.before[j.output];
    }
    assert s - ({j.output} + j.temps) == (s - j.temps) - {j.output};
    assert j.before - ({j.output} + j.temps) == (j.before - j.temps) - {j.output};
  }

  /** At its start a job has an empty part of the trace. */
  lemma JobStarts(j: Job, trace: seq<Files>)
    requires j.from == |trace|
    ensures j.OnlyTemps(j.before) && j.AllSafe(trace) && j.AllRecoverable(trace)
  {}

  /** Streams into one of the job's temporary files. */
  method StreamTemp(disk: Disk, path: string, data: Bytes, append: bool, ghost j: Job) returns (ok: bool)
    requires j.WellFormed() && path in j.temps && j.OnlyTemps(disk.files)
    requires j.from <= |disk.trace| && j.AllSafe(disk.trace) && j.AllRecoverable(disk.trace)
    modifies disk
    ensures j.OnlyTemps(disk.files) && disk.files - {path} == old(disk.files) - {path}
    ensures j.from <= |disk.trace| && j.AllSafe(disk.trace) && j.AllRecoverable(disk.trace)
    ensures ok ==> disk.files == old(disk.files)[path :=
      (if append && path in old(disk.files) then old(disk.files)[path] else []) + data]
    ensures disk.reliable ==> ok
  {
    ok := disk.Stream(path, data, append);
    TempState(j, disk.files, old(disk.files), path);
    ghost var grown := disk.trace[|old(disk.trace)|..];
    forall i | j.from <= i < |disk.trace| ensures j.Safe(disk.trace[i]) && j.Recoverable(disk.trace[i]) {
      if i >= |old(disk.trace)| {
        assert disk.trace[i] == grown[i - |old(disk.trace)|];
        TempState(j, disk.trace[i], old(disk.files), path);
      } else {
        assert disk.trace[i] == old(disk.trace)[i];
      }
    }
  }

  /** `replaceAtomically`: removes the old output, then renames the finished temporary file. */
  method ReplaceAtomically(disk: Disk, ghost j: Job, final: string, output: string) returns (ok: bool)
    requires j.WellFormed() && final == j.final && output == j.output
    requires j.OnlyTemps(disk.files) && final in disk.files && j.complete == Some(disk.files[final])
    requires j.from <= |disk.trace| && j.AllSafe(disk.trace) && j.AllRecoverable(disk.trace)
    modifies disk
    ensures j.from <= |disk.trace| && j.AllSafe(disk.trace) && j.AllRecoverable(disk.trace)
    ensures j.Safe(disk.files) && j.Recoverable(disk.files)
    ensures ok ==> output in disk.files && j.complete == Some(disk.files[output]) && final !in disk.files
    ensures !ok ==> output !in disk.files || j.AsBefore(disk.files)
    ensures disk.reliable ==> ok
  {
    disk.RemoveQuiet(output);
    ghost var removed := disk.files;
    RemovedState(j, old(disk.files), removed);
    ok := disk.Rename(final, output);
    if ok { RenamedState(j, old(disk.files), removed, disk.files); }
    assert disk.trace == old(disk.trace) + [removed] + [disk.files];
  }

  lemma RemovedState(j: Job, base: Files, s: Files)
    requires j.WellFormed() && j.OnlyTemps(base) && j.final in base && j.complete == Some(base[j.final])
    requires s == base || s == base - {j.output}
    ensures j.Safe(s) && j.Recoverable(s) && j.final in s && j.complete == Some(s[j.final])
    ensures j.output !in s || (j.output in j.before && s[j.output] == j.before[j.output])
  {
    OnlyTempsIsSafe(j, base);
    assert s - ({j.output} + j.temps) == base - ({j.output} + j.temps);
  }

  lemma RenamedState(j: Job, base: Files, removed: Files, s: Files)
    requires j.WellFormed() && j.Safe(removed) && j.final in removed && j.complete == Some(removed[j.final])
    requires s == (removed - {j.final})[j.output := removed[j.final]]
    ensures j.Safe(s) && j.Recoverable(s)
  {
    assert s - ({j.output} + j.temps) == removed - ({j.output} + j.temps);
  }

  /** A quiet removal of a temporary file keeps every state safe. */
  method CleanUp(disk: Disk, path: string, ghost j: Job)
    requires j.WellFormed() && path in j.temps && j.Safe(disk.files)
    requires j.from <= |disk.trace| && j.AllSafe(disk.trace)
    modifies disk
    ensures j.Safe(disk.files) && j.from <= |disk.trace| && j.AllSafe(disk.trace)
    ensures disk.files == old(disk.files) || disk.files == old(disk.files) - {path}
    ensures disk.reliable ==> disk.files == old(disk.files) - {path}
    ensures old(j.AllRecoverable(disk.trace)) && j.Recoverable(disk.files) ==> j.AllRecoverable(disk.trace)
  {
    disk.RemoveQuiet(path);
    assert disk.files - ({j.output} + j.temps) == old(disk.files) - ({j.output} + j.temps);
  }

  /** The result of a job on the output path. Success, a failed rename and a failed size check
      presuppose a complete new output; every other failure leaves the output as before. */
  ghost predicate JobResult(j: Job, s: Files, r: Outcome) {
    && j.Safe(s)
    && (r.Done? ==> j.output in s && j.complete == Some(s[j.output]) && r.size == |s[j.output]|)
    && (r.Failed? && r.at != Rename && r.at != Stat ==> j.AsBefore(s))
    && (r == Failed(Rename) ==> j.complete.Some? && (j.output !in s || j.AsBefore(s)))
    && (r == Failed(Stat) ==> j.output in s && j.complete == Some(s[j.output]))
  }

  // ---- encrypt-file

  ghost function EncryptJob(disk: Disk, a: Aead, input: string, output: string, password: string,
                            salt: string, iv: Bytes): Job
    reads disk
  {
    Job(disk.files, output, {output + ".cipher.tmp", output + ".final.tmp"},
        if input in disk.files then Some(Encode(a, password, salt, iv, disk.files[input])) else None,
        output + ".final.tmp", |disk.trace|)
  }

  lemma TempNamesDiffer(output: string)
    ensures output + ".cipher.tmp" != output + ".final.tmp"
  {
    assert (output + ".cipher.tmp")[|output| + 1] != (output + ".final.tmp")[|output| + 1];
  }

  lemma EncodeParts(a: Aead, password: string, salt: string, iv: Bytes, plain: Bytes)
    ensures var sealed := a.seal(a.derive(password, Salt(salt)), iv, plain);
            Encode(a, password, salt, iv, plain) == iv + sealed.1 + sealed.0
  {}

  /** The part of the job that may throw. */
  method EncryptSteps(disk: Disk, a: Aead, inputPath: string, outputPath: string, password: string,
                      salt: string, iv: Bytes) returns (r: Outcome)
    requires inputPath != outputPath + ".cipher.tmp" && inputPath != outputPath + ".final.tmp"
    modifies disk
    ensures var j := old(EncryptJob(disk, a, inputPath, outputPath, password, salt, iv));
            && JobResult(j, disk.files, r) && r != Failed(Stat)
            && j.from <= |disk.trace| && j.AllSafe(disk.trace) && j.AllRecoverable(disk.trace)
            && j.Recoverable(disk.files)
    ensures disk.reliable ==> (r.Done? <==> inputPath in old(disk.files)) && (r.Failed? ==> r == Failed(Input))
    ensures r.Done? ==> outputPath + ".final.tmp" !in disk.files
  {
    hide Job.AllSafe, Job.AllRecoverable, Job.OnlyTemps, Job.Safe, Job.Recoverable, Job.AsBefore, Encode;
    ghost var j := EncryptJob(disk, a, inputPath, outputPath, password, salt, iv);
    var cipherTemp, finalTemp := outputPath + ".cipher.tmp", outputPath + ".final.tmp";
    JobStarts(j, disk.trace);
    TempNamesDiffer(outputPath);
    var input := disk.Read(inputPath);
    if input.None? {
      var _ := StreamTemp(disk, cipherTemp, [], false, j);
      OnlyTempsIsSafe(j, disk.files);
      return Failed(Input);
    }
    var sealed := a.seal(a.derive(password, Salt(salt)), iv, input.value);
    var ok := StreamTemp(disk, cipherTemp, sealed.0, false, j);
    OnlyTempsIsSafe(j, disk.files);
    if !ok { return Failed(Cipher); }
    ok := StreamTemp(disk, finalTemp, iv + sealed.1, false, j);
    OnlyTempsIsSafe(j, disk.files);
    if !ok { return Failed(Header); }
    assert disk.files[cipherTemp] == sealed.0;
    var ct := disk.Read(cipherTemp);
    if ct.None? { return Failed(Body); }
    ok := StreamTemp(disk, finalTemp, ct.value, true, j);
    OnlyTempsIsSafe(j, disk.files);
    if !ok { return Failed(Body); }
    EncodeParts(a, password, salt, iv, input.value);
    assert disk.files[finalTemp] == iv + sealed.1 + sealed.0;
    ok := ReplaceAtomically(disk, j, finalTemp, outputPath);
    if !ok { return Failed(Rename); }
    return Done(|iv| + |sealed.1| + |ct.value|);
  }

  /** `encrypt-file`. Whatever fails, every disk state shows the output as before, complete or
      absent; it ends absent only after a failed rename, and until then a missing output can
      be recovered from the temporary file. */
  method EncryptFile(disk: Disk, a: Aead, inputPath: string, outputPath: string, password: string,
                     salt: string, iv: Bytes) returns (r: Outcome)
    requires inputPath != outputPath + ".cipher.tmp" && inputPath != outputPath + ".final.tmp"
    modifies disk
    ensures var j := old(EncryptJob(disk, a, inputPath, outputPath, password, salt, iv));
            && JobResult(j, disk.files, r)
            && j.from <= |disk.trace| && j.AllSafe(disk.trace)
            && (r != Failed(Rename) ==> j.AllRecoverable(disk.trace))
    ensures outputPath in old(disk.files) && outputPath !in disk.files ==> r == Failed(Rename)
    ensures disk.reliable ==> (r.Done? <==> inputPath in old(disk.files)) && (r.Failed? ==> r == Failed(Input))
    ensures disk.reliable ==> outputPath + ".cipher.tmp" !in disk.files && outputPath + ".final.tmp" !in disk.files
  {
    ghost var j := EncryptJob(disk, a, inputPath, outputPath, password, salt, iv);
    r := EncryptSteps(disk, a, inputPath, outputPath, password, salt, iv);
    if r.Failed? {
      CleanUp(disk, outputPath + ".final.tmp", j);
    }
    CleanUp(disk, outputPath + ".cipher.tmp", j);
    if r.Done? {
      var written := disk.Read(outputPath);
      r := if written.Some? then Done(|written.value|) else Failed(Stat);
    }
  }

  // ---- decrypt-file

  ghost function DecryptJob(disk: Disk, a: Aead, input: string, output: string, password: string, salt: string): Job
    reads disk
  {
    var plain := if input in disk.files then Decode(a, password, salt, disk.files[input]) else None;
    Job(disk.files, output, {output + ".tmp"}, plain, output + ".tmp", |disk.trace|)
  }

  /** The outcome on a reliable disk depends on the input alone: there is none, it is shorter than
      32 bytes, it is not authentic, or it is decrypted. */
  ghost predicate DecryptsAsFound(files: Files, a: Aead, input: string, password: string, salt: string, r: Outcome) {
    if input !in files then r == Failed(Input)
    else if |files[input]| < 32 then r == Failed(Length)
    else if Decode(a, password, salt, files[input]).None? then r == Failed(Cipher)
    else r.Done?
  }

  /** The part of the job before the final size check. */
  method DecryptSteps(disk: Disk, a: Aead, inputPath: string, outputPath: string, password: string,
                      salt: string) returns (r: Outcome)
    requires inputPath != outputPath + ".tmp"
    modifies disk
    ensures var j := old(DecryptJob(disk, a, inputPath, outputPath, password, salt));
            && JobResult(j, disk.files, r) && r != Failed(Stat)
            && j.from <= |disk.trace| && j.AllSafe(disk.trace) && j.AllRecoverable(disk.trace)
            && j.Recoverable(disk.files)
    ensures r.Done? ==> inputPath in old(disk.files) && Decode(a, password, salt, old(disk.files)[inputPath]).Some?
    ensures r == Failed(Input) || r == Failed(Length) ==> disk.files == old(disk.files)
    ensures disk.reliable ==> DecryptsAsFound(old(disk.files), a, inputPath, password, salt, r)
    ensures r.Done? ==> outputPath + ".tmp" !in disk.files
  {
    hide Job.AllSafe, Job.AllRecoverable, Job.OnlyTemps, Job.Safe, Job.Recoverable, Job.AsBefore;
    ghost var j := DecryptJob(disk, a, inputPath, outputPath, password, salt);
    JobStarts(j, disk.trace);
    OnlyTempsIsSafe(j, disk.files);
    var decryptTemp := outputPath + ".tmp";
    var input := disk.Read(inputPath);
    if input.None? { return Failed(Input); }
    var data := input.value;
    if |data| < IV_BYTES + TAG_BYTES { return Failed(Length); }
    var key := a.derive(password, Salt(salt));
    var plain := a.unseal(key, data[..IV_BYTES], data[IV_BYTES..IV_BYTES + TAG_BYTES], data[IV_BYTES + TAG_BYTES..]);
    if plain.None? {
      // The stream writes unauthenticated bytes before the final check fails.
      var unauthenticated: Bytes := *;
      var _ := StreamTemp(disk, decryptTemp, unauthenticated, false, j);
      OnlyTempsIsSafe(j, disk.files);
      return Failed(Cipher);
    }
    var ok := StreamTemp(disk, decryptTemp, plain.value, false, j);
    OnlyTempsIsSafe(j, disk.files);
    if !ok { return Failed(Body); }
    assert disk.files[decryptTemp] == plain.value && Decode(a, password, salt, data) == plain;
    ok := ReplaceAtomically(disk, j, decryptTemp, outputPath);
    if !ok { return Failed(Rename); }
    return Done(|plain.value|);
  }

  /** `decrypt-file`. As for encryption; when the input is missing, too short or not authentic,
      the output is as before in every disk state, so it is never given anything but the
      authenticated plaintext of the input. */
  method DecryptFile(disk: Disk, a: Aead, inputPath: string, outputPath: string, password: string,
                     salt: string) returns (r: Outcome)
    requires inputPath != outputPath + ".tmp"
    modifies disk
    ensures var j := old(DecryptJob(disk, a, inputPath, outputPath, password, salt));
            && JobResult(j, disk.files, r)
            && j.from <= |disk.trace| && j.AllSafe(disk.trace)
            && (r != Failed(Rename) ==> j.AllRecoverable(disk.trace))
    ensures r.Done? ==> inputPath in old(disk.files) && Decode(a, password, salt, old(disk.files)[inputPath]).Some?
    ensures outputPath in old(disk.files) && outputPath !in disk.files ==> r == Failed(Rename)
    ensures r == Failed(Input) || r == Failed(Length) ==> disk.files == old(disk.files)
    ensures disk.reliable ==>
              && DecryptsAsFound(old(disk.files), a, inputPath, password, salt, r)
              && (r == Failed(Input) || r == Failed(Length) || outputPath + ".tmp" !in disk.files)
  {
    ghost var j := DecryptJob(disk, a, inputPath, outputPath, password, salt);
    r := DecryptSteps(disk, a, inputPath, outputPath, password, salt);
    if r.Failed? {
      if r.at != Input && r.at != Length { CleanUp(disk, outputPath + ".tmp", j); }
    } else {
      var written := disk.Read(outputPath);
      r := if written.Some? then Done(|written.value|) else Failed(Stat);
    }
  }

  /** Encrypting a file and decrypting the result with the same password gives the file back,
      whenever both jobs report success. */
  method EncryptThenDecrypt(disk: Disk, a: Aead, source: string, encrypted: string, decrypted: string,
                            password: string, salt: string, iv: Bytes) returns (ok: bool)
    requires a.Correct() && |iv| == IV_BYTES
    requires source != encrypted + ".cipher.tmp" && source != encrypted + ".final.tmp"
    requires encrypted != decrypted + ".tmp"
    modifies disk
    ensures ok ==> source in old(disk.files) && decrypted in disk.files
                   && disk.files[decrypted] == old(disk.files)[source]
    ensures disk.reliable && source in old(disk.files) ==> ok
  {
    var e := EncryptFile(disk, a, source, encrypted, password, salt, iv);
    if e.Failed? { return false; }
    ghost var plain := if source in old(disk.files) then old(disk.files)[source] else [];
    DecodeUndoesEncode(a, password, salt, iv, plain);
    var d := DecryptFile(disk, a, encrypted, decrypted, password, salt);
    return d.Done?;
  }
}
