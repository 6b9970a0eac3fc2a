/**
  The crash-atomic replacement of a state file (src/state_file.rs), as steps on a disk.

  A `Machine` is a disk, the answers the operating system will give to the calls to come, and every state the
  disk has been in. A process may stop at any of those states, and a machine that loses power comes back as a
  `CrashImage` of one of them.
 */
module StateFile {
  import opened Wrappers
  import opened Bytes
  import Decimal

  /** A resolved directory and a name in it; `..` and the root have no name. */
  datatype Path = Path(dir: string, name: Option<string>)

  datatype Access = Read | Write | Execute

  datatype Mode = Mode(owner: set<Access>, others: set<Access>)

  /** Mode `0600`. */
  const PRIVATE := Mode({Read, Write}, {})

  /** A file, a link, or something else, such as a directory. */
  datatype Entry = Regular(data: seq<Byte>, synced: bool, mode: Mode) | Link(to: Path) | Other(mode: Mode)

  type Disk = map<Path, Entry>

  /** The path of the entry that `p` stands for once at most `hops` links have been followed. */
  function Follow(fs: Disk, p: Path, hops: nat): Option<Path>
    decreases hops
  {
    if p !in fs then None
    else if !fs[p].Link? then Some(p)
    else if hops == 0 then None
    else Follow(fs, fs[p].to, hops - 1)
  }

  /** `ps` leads from its first path to its last, each but the last being a link to the next. */
  ghost predicate Links(fs: Disk, ps: seq<Path>) {
    && ps != []
    && forall i :: 0 <= i < |ps| - 1 ==> ps[i] in fs && fs[ps[i]] == Link(ps[i + 1])
  }

  /** `Follow` finds where the links lead, if that is something other than a link and not too far. */
  lemma {:induction false} FollowIsLinks(fs: Disk, p: Path, hops: nat) returns (ps: seq<Path>)
    ensures Links(fs, ps) && ps[0] == p && |ps| <= hops + 1
    ensures var q := ps[|ps| - 1];
            if q !in fs then Follow(fs, p, hops) == None
            else if fs[q].Link? then Follow(fs, p, hops) == None && |ps| == hops + 1
            else Follow(fs, p, hops) == Some(q)
    decreases hops
  {
    ps := [p];
    if p in fs && fs[p].Link? && hops > 0 {
      var more := FollowIsLinks(fs, fs[p].to, hops - 1);
      ps := [p] + more;
    }
  }

  predicate NotAFile(fs: Disk, p: Path, hops: nat) {
    var q := Follow(fs, p, hops);
    q.Some? && q.value in fs && !fs[q.value].Regular?
  }

  /** A call is answered by failure, or works; `n` is then the random number drawn or the number of bytes
      taken beyond the first. */
  datatype Answer = Fails | Works(n: nat)

  const TRIES := 10_000

  function TempName(path: Path, n: nat): Path
    requires path.name.Some?
  {
    Path(path.dir, Some(path.name.value + ".tmp" + Decimal.Digits(n % 0x1_0000_0000)))
  }

  /** An owner-only file next to `path`, under a name that was free. */
  predicate IsTemp(was: Disk, tmp: Path, path: Path) {
    && tmp !in was && tmp != path && tmp.dir == path.dir
    && path.name.Some? && tmp.name.Some? && path.name.value + ".tmp" <= tmp.name.value
    && var v := Decimal.Value(tmp.name.value[|path.name.value| + 4..]);
       v.Some? && 0 <= v.value < 0x1_0000_0000
  }

  ghost predicate HasTemp(was: Disk, s: Disk, path: Path, tmp: Path) {
    && IsTemp(was, tmp, path) && tmp in s
    && s[tmp].Regular? && s[tmp].mode.others == {}
    && s == was[tmp := s[tmp]]
  }

  function Replaced(was: Disk, path: Path, data: seq<Byte>): Disk {
    was[path := Regular(data, true, PRIVATE)]
  }

  /** What the disk may look like at any moment of `write_atomic`. */
  ghost predicate Safe(was: Disk, s: Disk, path: Path, data: seq<Byte>) {
    s == was || s == Replaced(was, path, data) || exists tmp :: HasTemp(was, s, path, tmp)
  }

  /** After a loss of power, a file that was not synced holds anything at all. */
  ghost predicate CrashImage(s: Disk, s': Disk) {
    && s'.Keys == s.Keys
    && forall p | p in s ::
         if s[p].Regular? && !s[p].synced then s'[p].Regular? && s'[p].mode == s[p].mode else s'[p] == s[p]
  }

  /** Old or new, never a mix; other files keep their contents; whatever appeared is owner-only. */
  lemma CrashIsSafe(was: Disk, s: Disk, s': Disk, path: Path, data: seq<Byte>, p: Path)
    requires Safe(was, s, path, data) && CrashImage(s, s')
    ensures p in was && p != path && (was[p].Regular? ==> was[p].synced) ==> MapGet(s', p) == Some(was[p])
    ensures path in was && (was[path].Regular? ==> was[path].synced) ==>
      MapGet(s', path) in {Some(was[path]), Some(Regular(data, true, PRIVATE))}
    ensures path !in was ==> MapGet(s', path) in {None, Some(Regular(data, true, PRIVATE))}
    ensures p in s' && p !in was ==> s'[p].Regular? && s'[p].mode.others == {}
  {
    if s != was && s != Replaced(was, path, data) {
      var tmp :| HasTemp(was, s, path, tmp);
      assert forall q :: q in s <==> q in was || q == tmp;
    }
  }

  lemma TempNameIsLonger(path: Path, n: nat)
    requires path.name.Some?
    ensures TempName(path, n) != path && TempName(path, n).dir == path.dir
    ensures path.name.value + ".tmp" <= TempName(path, n).name.value
    ensures Decimal.Value(TempName(path, n).name.value[|path.name.value| + 4..]) == Some(n % 0x1_0000_0000)
  {
    var digits := Decimal.Digits(n % 0x1_0000_0000);
    assert |TempName(path, n).name.value| > |path.name.value|;
    assert TempName(path, n).name.value[|path.name.value| + 4..] == digits;
    Decimal.ValueOfDigits(0, n % 0x1_0000_0000);
    assert Decimal.Zeros(0) + digits == digits;
  }

  class Machine {
    var fs: Disk
    var past: seq<Disk>
    var clock: nat
    const answers: nat -> Answer
    const umask: Mode
    const hops: nat

    constructor (fs: Disk, answers: nat -> Answer, umask: Mode, hops: nat)
      ensures this.fs == fs && past == [fs] && clock == 0
      ensures this.answers == answers && this.umask == umask && this.hops == hops
    {
      this.fs, past, clock := fs, [fs], 0;
      this.answers, this.umask, this.hops := answers, umask, hops;
    }

    ghost predicate Valid()
      reads this
    {
      past != [] && past[|past| - 1] == fs
    }

    /** Some call made since `start` was answered by failure. */
    ghost predicate Failed(start: nat)
      reads this
    {
      exists c :: start <= c < clock && answers(c).Fails?
    }

    /** The `tries` names drawn from `start` on were all taken. */
    ghost predicate AllTaken(start: nat, tries: nat, was: Disk, path: Path) {
      && path.name.Some?
      && forall c :: start <= c < start + tries ==> answers(c).Works? && TempName(path, answers(c).n) in was
    }

    lemma SameNames(tries: nat, was: Disk, s: Disk, path: Path)
      requires was.Keys == s.Keys
      ensures forall c :: AllTaken(c, tries, was, path) <==> AllTaken(c, tries, s, path)
    {
    }

    /** Every state entered since `past` had length `n` is as `write_atomic` allows. */
    ghost predicate SafeSince(n: nat, was: Disk, path: Path, data: seq<Byte>)
      reads this
    {
      forall i :: n <= i < |past| ==> Safe(was, past[i], path, data)
    }

    /** The system's answer to the next call. */
    method Ask() returns (a: Answer)
      modifies this`clock
      ensures clock == old(clock) + 1 && a == answers(old(clock))
    {
      a := answers(clock);
      clock := clock + 1;
    }

    /** The disk takes its next state. */
    method Become(s: Disk)
      modifies this`fs, this`past
      ensures fs == s && past == old(past) + [s]
    {
      fs := s;
      past := past + [s];
    }

    /** `create_temp`: exclusive creation, giving up after `TRIES` names that are taken. */
    method CreateTemp(path: Path) returns (tmp: Option<Path>)
      requires Valid()
      modifies this`fs, this`past, this`clock
      ensures Valid() && clock >= old(clock)
      ensures tmp.None? ==> fs == old(fs) && past == old(past)
      ensures tmp.None? ==> path.name.None? || Failed(old(clock)) || AllTaken(old(clock), 10_000, fs, path)
      ensures tmp.Some? ==> past == old(past) + [fs] && HasTemp(old(fs), fs, path, tmp.value)
      ensures tmp.Some? ==> fs[tmp.value].data == []
      ensures tmp.Some? ==> !Failed(old(clock)) && !AllTaken(old(clock), 10_000, old(fs), path)
    {
      if path.name.None? { return None; }
      var tries := 0;
      while tries < TRIES
        invariant 0 <= tries <= TRIES && clock == old(clock) + tries
        invariant fs == old(fs) && past == old(past)
        invariant AllTaken(old(clock), tries, fs, path)
      {
        var a := Ask();
        if a.Fails? {
          assert answers(clock - 1).Fails?;
          return None;
        }
        var name := TempName(path, a.n);
        TempNameIsLonger(path, a.n);
        if name !in fs {
          assert TempName(path, answers(clock - 1).n) !in fs;
          Become(fs[name := Regular([], false, Mode({Read, Write} - umask.owner, {}))]);
          return Some(name);
        }
        tries := tries + 1;
      }
      tmp := None;
    }

    /** `write_all` on the open temporary file: some bytes at a time, and any call may fail. */
    method WriteAll(ghost was: Disk, ghost path: Path, tmp: Path, data: seq<Byte>) returns (ok: bool)
      requires Valid() && HasTemp(was, fs, path, tmp) && fs[tmp].data == []
      modifies this`fs, this`past, this`clock
      ensures Valid() && clock >= old(clock) && old(past) <= past
      ensures HasTemp(was, fs, path, tmp) && fs[tmp].mode == old(fs[tmp].mode)
      ensures ok ==> fs[tmp].data == data
      ensures !ok ==> clock > old(clock) && answers(clock - 1).Fails?
      ensures ok <==> !Failed(old(clock))
      ensures SafeSince(|old(past)|, was, path, data)
    {
      var mode := fs[tmp].mode;
      var done := 0;
      while done < |data|
        invariant 0 <= done <= |data| && Valid() && clock >= old(clock) && old(past) <= past
        invariant HasTemp(was, fs, path, tmp) && fs[tmp].mode == mode && fs[tmp].data == data[..done]
        invariant SafeSince(|old(past)|, was, path, data) && !Failed(old(clock))
      {
        var a := Ask();
        if a.Fails? {
          assert answers(clock - 1).Fails?;
          return false;
        }
        done := if done + 1 + a.n < |data| then done + 1 + a.n else |data|;
        Become(fs[tmp := Regular(data[..done], false, mode)]);
        assert HasTemp(was, fs, path, tmp);
      }
      assert data[..|data|] == data;
      ok := true;
    }

    /** One call that takes the disk to `s` if it works and changes nothing if it fails. */
    method Call(s: Disk) returns (ok: bool)
      requires Valid()
      modifies this`fs, this`past, this`clock
      ensures Valid() && clock == old(clock) + 1 && ok == answers(old(clock)).Works?
      ensures ok ==> fs == s && past == old(past) + [s]
      ensures !ok ==> fs == old(fs) && past == old(past)
    {
      var a := Ask();
      ok := a.Works?;
      if ok { Become(s); }
    }

    /** `fill_and_rename`: owner-only before the first byte, synced before the rename. */
    method FillAndRename(ghost was: Disk, tmp: Path, path: Path, data: seq<Byte>) returns (ok: bool)
      requires Valid() && HasTemp(was, fs, path, tmp) && fs[tmp].data == []
      modifies this`fs, this`past, this`clock
      ensures Valid() && clock >= old(clock) && old(past) <= past
      ensures ok ==> fs == Replaced(was, path, data)
      ensures !ok ==> HasTemp(was, fs, path, tmp) && clock > old(clock) && answers(clock - 1).Fails?
      ensures ok <==> !Failed(old(clock))
      ensures SafeSince(|old(past)|, was, path, data)
    {
      ok := Call(fs[tmp := fs[tmp].(mode := PRIVATE)]);
      if !ok { return; }
      assert HasTemp(was, fs, path, tmp);
      ok := WriteAll(was, path, tmp, data);
      if !ok { return; }
      ok := SyncAndRename(was, tmp, path, data);
    }

    method SyncAndRename(ghost was: Disk, tmp: Path, path: Path, data: seq<Byte>) returns (ok: bool)
      requires Valid() && HasTemp(was, fs, path, tmp) && fs[tmp].data == data && fs[tmp].mode == PRIVATE
      modifies this`fs, this`past, this`clock
      ensures Valid() && clock >= old(clock) && old(past) <= past
      ensures ok ==> fs == Replaced(was, path, data)
      ensures !ok ==> HasTemp(was, fs, path, tmp) && clock > old(clock) && answers(clock - 1).Fails?
      ensures ok <==> !Failed(old(clock))
      ensures SafeSince(|old(past)|, was, path, data)
    {
      ok := Call(fs[tmp := fs[tmp].(synced := true)]);
      if !ok { return; }
      assert HasTemp(was, fs, path, tmp);
      RenamedIs(was, fs, path, tmp);
      ok := Call((fs - {tmp})[path := fs[tmp]]);
    }

    /** `write_atomic` */
    method WriteAtomic(path: Path, data: seq<Byte>) returns (ok: bool)
      requires Valid()
      modifies this`fs, this`past, this`clock
      ensures Valid() && clock >= old(clock) && old(past) <= past
      ensures SafeSince(|old(past)|, old(fs), path, data)
      ensures ok ==> fs == Replaced(old(fs), path, data)
      ensures !ok ==> fs == old(fs) || exists tmp :: HasTemp(old(fs), fs, path, tmp)
      ensures !ok && fs != old(fs) ==>
        clock >= old(clock) + 2 && answers(clock - 2).Fails? && answers(clock - 1).Fails?
      ensures NotAFile(old(fs), path, hops) ==> past == old(past)
      ensures var q := Follow(old(fs), path, hops);
              ok && q.Some? ==> q.value in old(fs) && old(fs)[q.value].Regular?
      ensures ok <==>
        && !NotAFile(old(fs), path, hops) && path.name.Some?
        && !AllTaken(old(clock), 10_000, old(fs), path) && !Failed(old(clock))
    {
      ghost var links := FollowIsLinks(fs, path, hops);
      if NotAFile(fs, path, hops) { return false; }
      var tmp := CreateTemp(path);
      if tmp.None? { return false; }
      ok := FillOrRemove(old(fs), tmp.value, path, data);
    }

    /** What follows the creation of the temporary file: on failure it is removed. */
    method FillOrRemove(ghost was: Disk, tmp: Path, path: Path, data: seq<Byte>) returns (ok: bool)
      requires Valid() && HasTemp(was, fs, path, tmp) && fs[tmp].data == []
      modifies this`fs, this`past, this`clock
      ensures Valid() && clock >= old(clock) && old(past) <= past
      ensures SafeSince(|old(past)|, was, path, data)
      ensures ok ==> fs == Replaced(was, path, data)
      ensures !ok ==> fs == was || HasTemp(was, fs, path, tmp)
      ensures !ok && fs != was ==>
        clock >= old(clock) + 2 && answers(clock - 2).Fails? && answers(clock - 1).Fails?
      ensures ok <==> !Failed(old(clock))
    {
      ok := FillAndRename(was, tmp, path, data);
      if !ok {
        RemovedIs(was, fs, path, tmp);
        var _ := Call(fs - {tmp});
      }
    }
  }

  lemma RenamedIs(was: Disk, s: Disk, path: Path, tmp: Path)
    requires HasTemp(was, s, path, tmp)
    ensures (s - {tmp})[path := s[tmp]] == was[path := s[tmp]]
  {
    assert forall q :: q in s <==> q in was || q == tmp;
    assert s - {tmp} == was;
  }

  lemma RemovedIs(was: Disk, s: Disk, path: Path, tmp: Path)
    requires HasTemp(was, s, path, tmp)
    ensures s - {tmp} == was
  {
    assert forall q :: q in s <==> q in was || q == tmp;
  }
}
