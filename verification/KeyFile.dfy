/**
  Loading, migrating and minting the key file (src/config.rs), on top of the crash-atomic replacement of
  `StateFile`. The JSON printer and parser are parameters: all that is asked of them is that what is printed
  parses as the current format.
 */
module KeyFile {
  import opened Wrappers
  import opened Bytes
  import opened StateFile

  type Secret = seq<Byte>

  datatype PersistState = PersistState(nodeKey: Secret, machineKey: Secret, networkLockKey: Secret,
                                       oldNodeKey: Option<Secret>, acmeAccountKey: Option<Secret>)

  datatype NodeState = NodeState(discoKey: Secret, nodeKey: Secret, machineKey: Secret, networkLockKey: Secret,
                                 oldNodeKey: Option<Secret>, acmeAccountKey: Option<Secret>)

  datatype KeyFile = Old(node: NodeState) | New(keys: PersistState)

  datatype BadFormat = Error | Overwrite

  datatype Codec = Codec(decode: seq<Byte> -> Option<KeyFile>, encode: PersistState -> seq<Byte>)

  ghost predicate Faithful(codec: Codec) {
    forall k :: codec.decode(codec.encode(k)) == Some(New(k))
  }

  function KeyState(f: KeyFile): PersistState {
    match f
    case Old(n) => PersistState(n.nodeKey, n.machineKey, n.networkLockKey, n.oldNodeKey, n.acmeAccountKey)
    case New(k) => k
  }

  /** What an older version stored for these keys: the same fields, and a disco key. */
  function OldFormat(k: PersistState, disco: Secret): KeyFile {
    Old(NodeState(disco, k.nodeKey, k.machineKey, k.networkLockKey, k.oldNodeKey, k.acmeAccountKey))
  }

  /** Going to the new format gives every key back in its place, and forgets only the disco key. */
  lemma OldFormatKeepsKeys(f: KeyFile, k: PersistState)
    ensures f.Old? ==> OldFormat(KeyState(f), f.node.discoKey) == f
    ensures forall disco :: KeyState(OldFormat(k, disco)) == k
  {
  }

  /** The bytes `path` stands for, if it stands for a file. */
  function Contents(fs: Disk, path: Path, hops: nat): Option<seq<Byte>> {
    var q := Follow(fs, path, hops);
    if q.Some? && q.value in fs && fs[q.value].Regular? then Some(fs[q.value].data) else None
  }

  /** Reading `path` reports that nothing is there. */
  predicate Missing(fs: Disk, path: Path, hops: nat)
    decreases hops
  {
    path !in fs || (fs[path].Link? && hops > 0 && Missing(fs, fs[path].to, hops - 1))
  }

  lemma {:induction false} MissingIsLinks(fs: Disk, p: Path, hops: nat) returns (ps: seq<Path>)
    ensures Links(fs, ps) && ps[0] == p && |ps| <= hops + 1
    ensures ps[|ps| - 1] in fs && fs[ps[|ps| - 1]].Link? ==> |ps| == hops + 1
    ensures Missing(fs, p, hops) <==> ps[|ps| - 1] !in fs
    decreases hops
  {
    ps := [p];
    if p in fs && fs[p].Link? && hops > 0 {
      var more := MissingIsLinks(fs, fs[p].to, hops - 1);
      ps := [p] + more;
    }
  }

  /** The key file that a load finds on the disk. */
  function Found(fs: Disk, path: Path, hops: nat, codec: Codec): Option<KeyFile> {
    var bytes := Contents(fs, path, hops);
    if bytes.None? then None else codec.decode(bytes.value)
  }

  /** The key state that a load finds on the disk. */
  function Stored(fs: Disk, path: Path, hops: nat, codec: Codec): Option<PersistState> {
    var f := Found(fs, path, hops, codec);
    if f.None? then None else Some(KeyState(f.value))
  }

  lemma {:induction false} FollowKeeps(fs: Disk, p: Path, hops: nat, tmp: Path, e: Entry)
    requires Follow(fs, p, hops).Some? && tmp !in fs
    ensures Follow(fs, p, hops).value in fs && Follow(fs[tmp := e], p, hops) == Follow(fs, p, hops)
    decreases hops
  {
    if fs[p].Link? { FollowKeeps(fs, fs[p].to, hops - 1, tmp, e); }
  }

  lemma {:induction false} FollowIgnoresFiles(fs: Disk, p: Path, hops: nat, q: Path, e: Entry)
    requires q in fs && !fs[q].Link? && !e.Link?
    ensures Follow(fs[q := e], p, hops) == Follow(fs, p, hops)
    ensures Missing(fs[q := e], p, hops) == Missing(fs, p, hops)
    decreases hops
  {
    if p in fs && fs[p].Link? && hops > 0 { FollowIgnoresFiles(fs, fs[p].to, hops - 1, q, e); }
  }

  lemma {:induction false} FollowedIsThere(fs: Disk, p: Path, hops: nat)
    ensures Follow(fs, p, hops).Some? ==> Follow(fs, p, hops).value in fs && !fs[Follow(fs, p, hops).value].Link?
    ensures Missing(fs, p, hops) ==> Follow(fs, p, hops).None?
    decreases hops
  {
    if p in fs && fs[p].Link? && hops > 0 { FollowedIsThere(fs, fs[p].to, hops - 1); }
  }

  /** At every moment of a write over a file that can be read, either the old bytes are read or the new ones. */
  lemma OldOrNewBytes(was: Disk, s: Disk, path: Path, hops: nat, data: seq<Byte>)
    requires Safe(was, s, path, data) && Contents(was, path, hops).Some?
    ensures Contents(s, path, hops) == Contents(was, path, hops) || Contents(s, path, hops) == Some(data)
  {
    if s != was && s != Replaced(was, path, data) {
      var tmp :| HasTemp(was, s, path, tmp);
      FollowKeeps(was, path, hops, tmp, s[tmp]);
    }
  }

  /** Whatever was asked of them, the loads since `n` found the same keys on the disk. */
  ghost predicate KeptSince(m: Machine, n: nat, path: Path, codec: Codec, keys: PersistState)
    reads m
  {
    forall i :: n <= i < |m.past| ==> Stored(m.past[i], path, m.hops, codec) == Some(keys)
  }

  ghost predicate UntouchedSince(m: Machine, n: nat, path: Path, bytes: Option<seq<Byte>>)
    reads m
  {
    forall i :: n <= i < |m.past| ==> Contents(m.past[i], path, m.hops) == bytes
  }

  /** What `path` stands for is there, and none of the others has any access to it. */
  predicate OwnerOnly(fs: Disk, path: Path, hops: nat) {
    var q := Follow(fs, path, hops);
    q.Some? && q.value in fs && !fs[q.value].Link? && fs[q.value].mode.others == {}
  }

  /** What `path` stands for is open to others, so a load restricts it. */
  predicate Exposed(fs: Disk, path: Path, hops: nat) {
    var q := Follow(fs, path, hops);
    q.Some? && q.value in fs && !fs[q.value].Link? && fs[q.value].mode.others != {}
  }

  /** The call of a load that reads the file: after the directory's, and the mode change if there is one. */
  function ReadCall(start: nat, fs: Disk, path: Path, hops: nat): nat {
    start + 1 + if Exposed(fs, path, hops) then 1 else 0
  }

  /** `restrict_existing_key_file` */
  method Restrict(m: Machine, path: Path)
    requires m.Valid()
    modifies m`fs, m`past, m`clock
    ensures m.Valid() && m.clock >= old(m.clock) && old(m.past) <= m.past
    ensures UntouchedSince(m, |old(m.past)|, path, Contents(old(m.fs), path, m.hops))
    ensures Contents(m.fs, path, m.hops) == Contents(old(m.fs), path, m.hops)
    ensures Missing(m.fs, path, m.hops) == Missing(old(m.fs), path, m.hops)
    ensures NotAFile(m.fs, path, m.hops) == NotAFile(old(m.fs), path, m.hops)
    ensures var q := Follow(old(m.fs), path, m.hops);
            if q.Some? && q.value in old(m.fs) && !old(m.fs)[q.value].Link?
               && old(m.fs)[q.value].mode.others != {} && !m.Failed(old(m.clock))
            then m.fs == old(m.fs)[q.value := old(m.fs)[q.value].(mode := PRIVATE)]
            else m.fs == old(m.fs)
    ensures Follow(m.fs, path, m.hops).Some? && !m.Failed(old(m.clock)) ==> OwnerOnly(m.fs, path, m.hops)
    ensures m.fs.Keys == old(m.fs).Keys
    ensures m.clock == old(m.clock) + if Exposed(old(m.fs), path, m.hops) then 1 else 0
  {
    var q := Follow(m.fs, path, m.hops);
    FollowedIsThere(m.fs, path, m.hops);
    if q.Some? && m.fs[q.value].mode.others != {} {
      var e := m.fs[q.value].(mode := PRIVATE);
      FollowIgnoresFiles(m.fs, path, m.hops, q.value, e);
      var ok := m.Call(m.fs[q.value := e]);
      assert !ok ==> m.answers(m.clock - 1).Fails?;
    }
  }

  /** `load_or_init` as `load_key_file` uses it; `minted` is the key state it would mint. */
  method Load(m: Machine, path: Path, bad: BadFormat, minted: PersistState, codec: Codec)
    returns (r: Option<PersistState>)
    requires m.Valid() && Faithful(codec)
    modifies m`fs, m`past, m`clock
    ensures m.Valid() && old(m.past) <= m.past
    ensures r.Some? ==> Stored(m.fs, path, m.hops, codec) == r
    ensures Stored(old(m.fs), path, m.hops, codec).Some? ==>
      && KeptSince(m, |old(m.past)|, path, codec, Stored(old(m.fs), path, m.hops, codec).value)
      && (r.None? ==> m.Failed(old(m.clock)))
    ensures Stored(old(m.fs), path, m.hops, codec).None? && r.Some? ==>
      && r.value == minted
      && (Missing(old(m.fs), path, m.hops) || (bad.Overwrite? && Contents(old(m.fs), path, m.hops).Some?))
    ensures Contents(old(m.fs), path, m.hops).Some? && Stored(old(m.fs), path, m.hops, codec).None? && bad.Error? ==>
      r.None? && UntouchedSince(m, |old(m.past)|, path, Contents(old(m.fs), path, m.hops))
    ensures r.None? && (Missing(old(m.fs), path, m.hops) ||
                        (bad.Overwrite? && Contents(old(m.fs), path, m.hops).Some?)) ==>
      m.Failed(old(m.clock)) || path.name.None? || exists c :: m.AllTaken(c, 10_000, m.fs, path)
    ensures m.answers(old(m.clock)).Fails? ==> r.None? && m.past == old(m.past)
    ensures Stored(old(m.fs), path, m.hops, codec).Some? ==>
      (r.None? <==>
       m.answers(old(m.clock)).Fails? || m.answers(ReadCall(old(m.clock), old(m.fs), path, m.hops)).Fails?)
    ensures Missing(old(m.fs), path, m.hops) ==>
      (r.Some? <==>
       && path.name.Some? && !m.AllTaken(old(m.clock) + 2, 10_000, old(m.fs), path) && !m.Failed(old(m.clock)))
    ensures r.Some? && !m.Failed(old(m.clock)) ==> OwnerOnly(m.fs, path, m.hops)
    ensures var f := Found(old(m.fs), path, m.hops, codec);
            && (f.Some? && f.value.Old? && !m.Failed(old(m.clock)) && path.name.Some?
                && (forall c :: !m.AllTaken(c, 10_000, old(m.fs), path)) ==>
                  Contents(m.fs, path, m.hops) == Some(codec.encode(KeyState(f.value))))
            && (f.Some? && f.value.New? ==>
                  UntouchedSince(m, |old(m.past)|, path, Contents(old(m.fs), path, m.hops)))
  {
    r := None;
    FollowedIsThere(m.fs, path, m.hops);
    var dir := m.Ask();
    if dir.Fails? {
      assert m.answers(m.clock - 1).Fails?;
      return;
    }
    Restrict(m, path);
    ghost var was := m.fs;
    r := ReadOrMint(m, path, bad, minted, codec);
    m.SameNames(10_000, was, old(m.fs), path);
  }

  /** What follows the mode change: the file is read and, if it has the old format, rewritten; keys are minted where
      there are none. */
  method ReadOrMint(m: Machine, path: Path, bad: BadFormat, minted: PersistState, codec: Codec)
    returns (r: Option<PersistState>)
    requires m.Valid() && Faithful(codec)
    modifies m`fs, m`past, m`clock
    ensures m.Valid() && m.clock > old(m.clock) && old(m.past) <= m.past
    ensures r.Some? ==> Stored(m.fs, path, m.hops, codec) == r
    ensures Stored(old(m.fs), path, m.hops, codec).Some? ==>
      && KeptSince(m, |old(m.past)|, path, codec, Stored(old(m.fs), path, m.hops, codec).value)
      && (r.None? <==> m.answers(old(m.clock)).Fails?)
    ensures Stored(old(m.fs), path, m.hops, codec).None? && r.Some? ==>
      && r.value == minted
      && (Missing(old(m.fs), path, m.hops) || (bad.Overwrite? && Contents(old(m.fs), path, m.hops).Some?))
    ensures Contents(old(m.fs), path, m.hops).Some? && Stored(old(m.fs), path, m.hops, codec).None? && bad.Error? ==>
      r.None? && UntouchedSince(m, |old(m.past)|, path, Contents(old(m.fs), path, m.hops))
    ensures r.None? && (Missing(old(m.fs), path, m.hops) ||
                        (bad.Overwrite? && Contents(old(m.fs), path, m.hops).Some?)) ==>
      m.Failed(old(m.clock)) || path.name.None? || exists c :: m.AllTaken(c, 10_000, m.fs, path)
    ensures Missing(old(m.fs), path, m.hops) ==>
      (r.Some? <==>
       && path.name.Some? && !m.AllTaken(old(m.clock) + 1, 10_000, old(m.fs), path) && !m.Failed(old(m.clock)))
    ensures r.Some? && !m.Failed(old(m.clock)) && !Exposed(old(m.fs), path, m.hops) ==> OwnerOnly(m.fs, path, m.hops)
    ensures var f := Found(old(m.fs), path, m.hops, codec);
            && (f.Some? && f.value.Old? && !m.Failed(old(m.clock)) && path.name.Some?
                && (forall c :: !m.AllTaken(c, 10_000, old(m.fs), path)) ==>
                  Contents(m.fs, path, m.hops) == Some(codec.encode(KeyState(f.value))))
            && (f.Some? && f.value.New? ==>
                  UntouchedSince(m, |old(m.past)|, path, Contents(old(m.fs), path, m.hops)))
  {
    r := None;
    FollowedIsThere(m.fs, path, m.hops);
    var read := m.Ask();
    if read.Fails? {
      assert m.answers(m.clock - 1).Fails?;
      return;
    }
    var bytes := Contents(m.fs, path, m.hops);
    if bytes.Some? {
      var f := codec.decode(bytes.value);
      if f.Some? {
        if f.value.Old? {
          var migrated := Migrate(m, path, KeyState(f.value), codec);
        }
        return Some(KeyState(f.value));
      }
      if bad.Error? { return; }
    } else if !Missing(m.fs, path, m.hops) {
      return;
    }
    r := Mint(m, path, minted, codec);
  }

  /** The new key state is written before it is used. */
  method Mint(m: Machine, path: Path, minted: PersistState, codec: Codec) returns (r: Option<PersistState>)
    requires m.Valid() && Faithful(codec) && !NotAFile(m.fs, path, m.hops)
    modifies m`fs, m`past, m`clock
    ensures m.Valid() && m.clock >= old(m.clock) && old(m.past) <= m.past
    ensures r.Some? ==> r.value == minted && Stored(m.fs, path, m.hops, codec) == r
    ensures r.Some? ==> OwnerOnly(m.fs, path, m.hops)
    ensures r.Some? <==>
      path.name.Some? && !m.AllTaken(old(m.clock), 10_000, old(m.fs), path) && !m.Failed(old(m.clock))
    ensures r.None? ==>
      m.Failed(old(m.clock)) || path.name.None? || exists c :: m.AllTaken(c, 10_000, m.fs, path)
  {
    r := None;
    ghost var was, start := m.fs, m.clock;
    var ok := m.WriteAtomic(path, codec.encode(minted));
    if ok {
      r := Some(minted);
    } else {
      assert m.AllTaken(start, 10_000, was, path) ==> m.AllTaken(start, 10_000, m.fs, path);
    }
  }

  /** Old to new format: whether or not the write works, the keys on the disk stay the same. */
  method Migrate(m: Machine, path: Path, keys: PersistState, codec: Codec) returns (ok: bool)
    requires m.Valid() && Faithful(codec) && Stored(m.fs, path, m.hops, codec) == Some(keys)
    modifies m`fs, m`past, m`clock
    ensures m.Valid() && m.clock >= old(m.clock) && old(m.past) <= m.past
    ensures KeptSince(m, |old(m.past)|, path, codec, keys)
    ensures Stored(m.fs, path, m.hops, codec) == Some(keys)
    ensures ok ==> Contents(m.fs, path, m.hops) == Some(codec.encode(keys))
    ensures ok <==> path.name.Some? && !m.AllTaken(old(m.clock), 10_000, old(m.fs), path) && !m.Failed(old(m.clock))
    ensures OwnerOnly(old(m.fs), path, m.hops) && !m.Failed(old(m.clock)) ==> OwnerOnly(m.fs, path, m.hops)
  {
    ok := m.WriteAtomic(path, codec.encode(keys));
    forall i | |old(m.past)| <= i < |m.past| ensures Stored(m.past[i], path, m.hops, codec) == Some(keys) {
      OldOrNewBytes(old(m.fs), m.past[i], path, m.hops, codec.encode(keys));
    }
  }

  datatype Attempt = Attempt(bad: BadFormat, minted: PersistState, crash: Option<nat>)

  /** Any run of loads, each of which may fail, or be killed at any moment before it returns. */
  method Run(m: Machine, path: Path, codec: Codec, plan: seq<Attempt>) returns (results: seq<Option<PersistState>>)
    requires m.Valid() && Faithful(codec)
    modifies m`fs, m`past, m`clock
    ensures |results| == |plan|
    ensures forall i, j :: 0 <= i < j < |results| && results[i].Some? && results[j].Some? ==> results[i] == results[j]
    ensures Stored(old(m.fs), path, m.hops, codec).Some? ==>
      forall i :: 0 <= i < |results| && results[i].Some? ==> results[i] == Stored(old(m.fs), path, m.hops, codec)
  {
    results := [];
    while |results| < |plan|
      invariant m.Valid() && |results| <= |plan|
      invariant Stored(old(m.fs), path, m.hops, codec).Some? ==>
        Stored(m.fs, path, m.hops, codec) == Stored(old(m.fs), path, m.hops, codec)
      invariant forall i :: 0 <= i < |results| && results[i].Some? ==> results[i] == Stored(m.fs, path, m.hops, codec)
    {
      var attempt := plan[|results|];
      var start := |m.past| - 1;
      var r := Load(m, path, attempt.bad, attempt.minted, codec);
      if attempt.crash.Some? {
        var at := start + attempt.crash.value % (|m.past| - start);
        m.Become(m.past[at]);
        r := None;
      }
      results := results + [r];
    }
  }
}
