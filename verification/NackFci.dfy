/**
 The generic NACK list of src/rtcp.js: lost numbers packed into entries of a base and a bitmask of the 16
 that follow (section 6.2.1 of RFC 4585).
 */
module NackFciModel {
  import opened Bits
  import opened SeqNum
  import opened Wire

  datatype Entry = Entry(pid: u16, blp: u16)

  const REACH := 16

  // ------------------------------------------------------------------
  // Sorting
  // ------------------------------------------------------------------

  ghost predicate Sorted(s: seq<u16>) {
    forall i, j :: 0 <= i < j < |s| ==> s[i] <= s[j]
  }

  function InsertNum(n: u16, s: seq<u16>): seq<u16> {
    if s == [] || n <= s[0] then [n] + s else [s[0]] + InsertNum(n, s[1..])
  }

  /** The result of the numeric sort. */
  function SortNums(s: seq<u16>): seq<u16> {
    if s == [] then [] else InsertNum(s[0], SortNums(s[1..]))
  }

  lemma {:induction false} InsertExact(n: u16, s: seq<u16>)
    requires Sorted(s)
    ensures Sorted(InsertNum(n, s)) && forall x :: x in InsertNum(n, s) <==> x == n || x in s
  {
    if s != [] && n > s[0] {
      var rest := InsertNum(n, s[1..]);
      InsertExact(n, s[1..]);
      assert forall x :: x in s <==> x == s[0] || x in s[1..];
      forall i | 0 <= i < |rest| ensures s[0] <= rest[i] {
        assert rest[i] in rest;
      }
    }
  }

  lemma {:induction false} SortExact(s: seq<u16>)
    ensures Sorted(SortNums(s)) && forall x :: x in SortNums(s) <==> x in s
  {
    if s != [] {
      SortExact(s[1..]);
      InsertExact(s[0], SortNums(s[1..]));
    }
  }

  // ------------------------------------------------------------------
  // Packing
  // ------------------------------------------------------------------

  /** How many of the sorted numbers lie within reach of `pid`. */
  function RunLength(pid: u16, s: seq<u16>): (n: nat)
    ensures n <= |s|
  {
    if s != [] && s[0] - pid <= REACH then 1 + RunLength(pid, s[1..]) else 0
  }

  /** The mask after these numbers; a repetition of the base adds nothing. */
  function AddBits(pid: u16, blp: nat, run: seq<u16>): nat
    requires forall i :: 0 <= i < |run| ==> run[i] >= pid
    decreases |run|
  {
    if run == [] then blp
    else AddBits(pid, if run[0] > pid then Or(blp, Shl(1, run[0] - pid - 1)) else blp, run[1..])
  }

  /** The greedy packing of sorted numbers. */
  function Pack(s: seq<u16>): seq<Entry>
    requires Sorted(s)
    decreases |s|
  {
    if s == [] then []
    else
      var run := RunLength(s[0], s[1..]);
      RunWithin(s[0], s[1..]);
      AddBitsFits(s[0], 0, s[1..1 + run]);
      [Entry(s[0], AddBits(s[0], 0, s[1..1 + run]))] + Pack(s[1 + run..])
  }

  lemma {:induction false} RunWithin(pid: u16, s: seq<u16>)
    requires Sorted(s)
    ensures var n := RunLength(pid, s);
            && (forall i :: 0 <= i < n ==> s[i] - pid <= REACH)
            && (forall i :: n <= i < |s| ==> s[i] - pid > REACH)
  {
    if s != [] && s[0] - pid <= REACH {
      RunWithin(pid, s[1..]);
    }
  }

  lemma {:induction false} AddBitsFits(pid: u16, blp: nat, run: seq<u16>)
    requires blp < 0x1_0000 && forall i :: 0 <= i < |run| ==> pid <= run[i] <= pid + REACH
    ensures AddBits(pid, blp, run) < 0x1_0000
    decreases |run|
  {
    if run != [] {
      if run[0] > pid {
        var d := run[0] - pid - 1;
        Pow2Words();
        ShlBound(1, d, 1);
        Pow2Monotone(d + 1, 16);
        OrBound(blp, Shl(1, d), 16);
        AddBitsFits(pid, Or(blp, Shl(1, d)), run[1..]);
      } else {
        AddBitsFits(pid, blp, run[1..]);
      }
    }
  }

  /** Bit k of the mask says that number pid + k + 1 is in the run. */
  lemma {:induction false} AddBitsExact(pid: u16, blp: nat, run: seq<u16>, k: nat)
    requires forall i :: 0 <= i < |run| ==> run[i] >= pid
    ensures Bit(AddBits(pid, blp, run), k) <==> Bit(blp, k) || exists i :: 0 <= i < |run| && run[i] == pid + k + 1
    decreases |run|
  {
    if run != [] {
      var rest := run[1..];
      var next := if run[0] > pid then Or(blp, Shl(1, run[0] - pid - 1)) else blp;
      AddBitsExact(pid, next, rest, k);
      assert forall i :: 1 <= i < |run| ==> run[i] == rest[i - 1];
      assert (exists i :: 0 <= i < |run| && run[i] == pid + k + 1)
        <==> run[0] == pid + k + 1 || (exists i :: 0 <= i < |rest| && rest[i] == pid + k + 1) by
      {
        if i :| 0 <= i < |rest| && rest[i] == pid + k + 1 {
          assert run[i + 1] == pid + k + 1;
        }
      }
      if run[0] > pid {
        var d := run[0] - pid - 1;
        BitOr(blp, Shl(1, d), k);
        BitShl(1, d, k);
        if k >= d {
          BitOne(k - d);
        }
      }
    }
  }

  // ------------------------------------------------------------------
  // Bytes and parsing
  // ------------------------------------------------------------------

  function EntryBytes(entries: seq<Entry>): Bytes {
    if entries == [] then [] else PutU16(entries[0].pid) + PutU16(entries[0].blp) + EntryBytes(entries[1..])
  }

  /** The numbers of the set bits from `bit` on. */
  function Following(pid: u16, blp: u16, bit: nat): seq<int>
    requires bit <= REACH
    decreases REACH - bit
  {
    if bit == REACH then []
    else (if Bit(blp, bit) then [pid + bit + 1] else []) + Following(pid, blp, bit + 1)
  }

  function Named(e: Entry): seq<int> {
    [e.pid] + Following(e.pid, e.blp, 0)
  }

  function ParseEntries(buf: Bytes, off: nat): seq<int>
    decreases |buf| - off
  {
    if off + 4 > |buf| then []
    else Named(Entry(GetU16(buf, off), GetU16(buf, off + 2))) + ParseEntries(buf, off + 4)
  }

  function AllNamed(entries: seq<Entry>): seq<int> {
    if entries == [] then [] else Named(entries[0]) + AllNamed(entries[1..])
  }

  lemma {:induction false} BytesRoundTrip(buf: Bytes, off: nat, entries: seq<Entry>)
    requires off + |EntryBytes(entries)| == |buf| && Holds(buf, off, EntryBytes(entries))
    ensures ParseEntries(buf, off) == AllNamed(entries)
    decreases |entries|
  {
    hide PutU16, GetU16, Named, Holds;
    if entries != [] {
      var e, rest := entries[0], EntryBytes(entries[1..]);
      HoldsSplit(buf, off, PutU16(e.pid) + PutU16(e.blp), rest);
      HoldsSplit(buf, off, PutU16(e.pid), PutU16(e.blp));
      GetPut16(buf, off, e.pid);
      GetPut16(buf, off + 2, e.blp);
      BytesRoundTrip(buf, off + 4, entries[1..]);
    }
  }

  // ------------------------------------------------------------------
  // Round trip
  // ------------------------------------------------------------------

  ghost predicate Ascending(s: seq<int>) {
    forall i, j :: 0 <= i < j < |s| ==> s[i] < s[j]
  }

  lemma AscendingConcat(a: seq<int>, b: seq<int>)
    requires Ascending(a) && Ascending(b) && forall x, y :: x in a && y in b ==> x < y
    ensures Ascending(a + b)
  {
    forall i, j | 0 <= i < j < |a + b| ensures (a + b)[i] < (a + b)[j] {
      if i < |a| <= j {
        assert a[i] in a && b[j - |a|] in b;
      }
    }
  }

  lemma {:induction false} FollowingMember(pid: u16, blp: u16, bit: nat, x: int)
    requires bit <= REACH
    ensures x in Following(pid, blp, bit) <==> pid + bit < x <= pid + REACH && Bit(blp, x - pid - 1)
    decreases REACH - bit
  {
    if bit < REACH {
      FollowingMember(pid, blp, bit + 1, x);
    }
  }

  lemma {:induction false} FollowingAscends(pid: u16, blp: u16, bit: nat)
    requires bit <= REACH
    ensures Ascending(Following(pid, blp, bit))
    decreases REACH - bit
  {
    if bit < REACH {
      var rest := Following(pid, blp, bit + 1);
      FollowingAscends(pid, blp, bit + 1);
      forall x | x in rest ensures pid + bit + 1 < x {
        FollowingMember(pid, blp, bit + 1, x);
      }
      AscendingConcat(if Bit(blp, bit) then [pid + bit + 1] else [], rest);
    }
  }

  /** The entry the packing starts with. */
  function FirstEntry(s: seq<u16>): Entry
    requires Sorted(s) && s != []
  {
    RunWithin(s[0], s[1..]);
    AddBitsFits(s[0], 0, s[1..1 + RunLength(s[0], s[1..])]);
    Entry(s[0], AddBits(s[0], 0, s[1..1 + RunLength(s[0], s[1..])]))
  }

  ghost predicate HasNum(s: seq<u16>, x: int) {
    exists i :: 0 <= i < |s| && s[i] == x
  }

  /** An entry names its base and the numbers its mask was made of. */
  lemma NamedTaken(pid: u16, taken: seq<u16>, e: Entry, x: int)
    requires forall i :: 0 <= i < |taken| ==> pid <= taken[i] <= pid + REACH
    requires e.pid == pid && e.blp == AddBits(pid, 0, taken)
    ensures x in Named(e) <==> x == pid || HasNum(taken, x)
  {
    FollowingMember(pid, e.blp, 0, x);
    if x > pid {
      AddBitsExact(pid, 0, taken, x - pid - 1);
      BitZero(x - pid - 1);
    }
    hide AddBits, Bit, Following;
    assert x in Named(e) <==> x == pid || x in Following(pid, e.blp, 0);
    if i :| 0 <= i < |taken| && taken[i] == x {
      assert pid <= taken[i];
    }
  }

  /** The numbers the first entry names are the run it was made of. */
  lemma NamedMember(s: seq<u16>, x: int)
    requires Sorted(s) && s != []
    ensures x in Named(FirstEntry(s)) <==>
              exists i :: 0 <= i < 1 + RunLength(s[0], s[1..]) && s[i] == x
  {
    var run := RunLength(s[0], s[1..]);
    var taken := s[1..1 + run];
    RunWithin(s[0], s[1..]);
    var e := FirstEntry(s);
    assert forall i :: 0 <= i < run ==> s[1..][i] == s[1 + i] == taken[i];
    hide RunLength, AddBits, Named;
    NamedTaken(s[0], taken, e, x);
    if i :| 0 <= i < |taken| && taken[i] == x {
      assert s[1 + i] == x;
    }
    if i :| 0 <= i < 1 + run && s[i] == x && i > 0 {
      assert taken[i - 1] == x;
    }
  }

  lemma NamedAscends(e: Entry)
    ensures Ascending(Named(e))
  {
    FollowingAscends(e.pid, e.blp, 0);
    forall x | x in Following(e.pid, e.blp, 0) ensures e.pid < x {
      FollowingMember(e.pid, e.blp, 0, x);
    }
    AscendingConcat([e.pid], Following(e.pid, e.blp, 0));
  }

  lemma PackStep(s: seq<u16>)
    requires Sorted(s) && s != []
    ensures var rest := s[1 + RunLength(s[0], s[1..])..];
            Sorted(rest) && AllNamed(Pack(s)) == Named(FirstEntry(s)) + AllNamed(Pack(rest))
  {
    hide Named, AddBits;
    var rest := s[1 + RunLength(s[0], s[1..])..];
    assert Pack(s) == [FirstEntry(s)] + Pack(rest);
  }

  lemma {:induction false} PackMember(s: seq<u16>, x: int)
    requires Sorted(s)
    ensures x in AllNamed(Pack(s)) <==> exists i :: 0 <= i < |s| && s[i] == x
    decreases |s|
  {
    if s != [] {
      var n := 1 + RunLength(s[0], s[1..]);
      var rest := s[n..];
      PackStep(s);
      NamedMember(s, x);
      PackMember(rest, x);
      hide Pack, Named, AllNamed, FirstEntry, RunLength;
      if i :| 0 <= i < |s| && s[i] == x && i >= n {
        assert rest[i - n] == x;
      }
    }
  }

  /** Packing and parsing give the numbers ascending, without repetition. */
  lemma {:induction false} PackAscends(s: seq<u16>)
    requires Sorted(s)
    ensures Ascending(AllNamed(Pack(s)))
    decreases |s|
  {
    if s != [] {
      var n := 1 + RunLength(s[0], s[1..]);
      var rest := s[n..];
      RunWithin(s[0], s[1..]);
      PackStep(s);
      PackAscends(rest);
      NamedAscends(FirstEntry(s));
      hide Pack, Named, AllNamed, FirstEntry, RunLength, Ascending;
      var a, b := Named(FirstEntry(s)), AllNamed(Pack(rest));
      forall x, y | x in a && y in b ensures x < y {
        NamedMember(s, x);
        PackMember(rest, y);
        var i :| 0 <= i < n && s[i] == x;
        var j :| 0 <= j < |rest| && rest[j] == y;
        assert rest[j] == s[1..][n - 1 + j];
        assert i > 0 ==> s[i] == s[1..][i - 1];
      }
      AscendingConcat(a, b);
    }
  }

  /** `_buildNackEntries`: sort, then pack. */
  function BuildEntries(lost: seq<u16>): seq<Entry> {
    SortExact(lost);
    Pack(SortNums(lost))
  }

  /** The list a NACK packet carries parses back to exactly the lost numbers, ascending. */
  lemma NackRoundTrip(lost: seq<u16>)
    ensures var r := ParseEntries(EntryBytes(BuildEntries(lost)), 0);
            Ascending(r) && forall x :: x in r <==> x in lost
  {
    var s := SortNums(lost);
    SortExact(lost);
    PackAscends(s);
    var bytes := EntryBytes(Pack(s));
    assert bytes[0..|bytes|] == bytes;
    BytesRoundTrip(bytes, 0, Pack(s));
    hide Pack, EntryBytes, ParseEntries, AllNamed, SortNums;
    forall x ensures x in AllNamed(Pack(s)) <==> x in lost {
      PackMember(s, x);
      if i :| 0 <= i < |s| && s[i] == x {
        assert s[i] in s;
      }
      if x in lost {
        var n: u16 := x;
        assert n in s;
      }
    }
  }

  // ------------------------------------------------------------------
  // Fewest entries
  // ------------------------------------------------------------------

  /** A base and what an entry covers from it: any set of numbers from the base to 16 after it. */
  datatype Cover = Cover(base: int, members: set<int>)

  ghost predicate Legal(c: Cover) {
    forall x :: x in c.members ==> c.base <= x <= c.base + REACH
  }

  ghost predicate Covered(covers: seq<Cover>, n: int) {
    exists j :: 0 <= j < |covers| && n in covers[j].members
  }

  lemma StillCovered(covers: seq<Cover>, j: nat, n: int)
    requires j < |covers| && Covered(covers, n) && n !in covers[j].members
    ensures Covered(covers[..j] + covers[j + 1..], n)
  {
    var k :| 0 <= k < |covers| && n in covers[k].members;
    assert (covers[..j] + covers[j + 1..])[if k < j then k else k - 1] == covers[k];
  }

  /** No packing into legal entries is shorter than the greedy one. */
  lemma {:induction false} Fewest(s: seq<u16>, covers: seq<Cover>)
    requires Sorted(s) && forall i :: 0 <= i < |s| ==> Covered(covers, s[i])
    requires forall j :: 0 <= j < |covers| ==> Legal(covers[j])
    ensures |Pack(s)| <= |covers|
    decreases |s|
  {
    if s != [] {
      var n := 1 + RunLength(s[0], s[1..]);
      var rest := s[n..];
      RunWithin(s[0], s[1..]);
      assert Covered(covers, s[0]);
      var j :| 0 <= j < |covers| && s[0] in covers[j].members;
      var others := covers[..j] + covers[j + 1..];
      forall i | 0 <= i < |rest| ensures Covered(others, rest[i]) {
        assert rest[i] == s[1..][n - 1 + i] == s[n + i];
        assert Legal(covers[j]);
        StillCovered(covers, j, rest[i]);
      }
      Fewest(rest, others);
    }
  }

  // ------------------------------------------------------------------
  // The loops of the source
  // ------------------------------------------------------------------

  method BuildNackEntries(lost: seq<u16>) returns (entries: seq<Entry>)
    ensures entries == BuildEntries(lost)
  {
    hide AddBits, RunLength, SortNums, Sorted;
    SortExact(lost);
    var s := SortNums(lost);
    entries := [];
    var i := 0;
    assert s[0..] == s;
    while i < |s|
      invariant 0 <= i <= |s| && Sorted(s[i..])
      invariant entries + Pack(s[i..]) == Pack(s)
    {
      var taken, e := PackOne(s[i..]);
      ghost var rest := s[i + taken..];
      assert s[i..][taken..] == rest;
      assert entries + ([e] + Pack(rest)) == (entries + [e]) + Pack(rest);
      entries := entries + [e];
      i := i + taken;
    }
  }

  /** One turn of the outer loop. */
  method PackOne(s: seq<u16>) returns (taken: nat, e: Entry)
    requires Sorted(s) && s != []
    ensures 1 <= taken <= |s| && Sorted(s[taken..]) && Pack(s) == [e] + Pack(s[taken..])
  {
    var pid := s[0];
    var blp: nat := 0;
    var i := 1;
    ghost var run := RunLength(pid, s[1..]);
    RunWithin(pid, s[1..]);
    AddBitsFits(pid, 0, s[1..1 + run]);
    forall k | 1 <= k < |s| ensures s[k] - pid <= REACH <==> k < 1 + run {
      assert s[1..][k - 1] == s[k];
    }
    while i < |s| && s[i] - pid <= REACH
      invariant 1 <= i <= 1 + run
      invariant AddBits(pid, blp, s[i..1 + run]) == AddBits(pid, 0, s[1..1 + run])
      decreases |s| - i
    {
      assert s[i..1 + run][1..] == s[i + 1..1 + run];
      var diff := s[i] - pid;
      if diff > 0 {
        blp := Or(blp, Shl(1, diff - 1));
      }
      i := i + 1;
    }
    assert s[i..1 + run] == [];
    taken, e := i, Entry(pid, blp);
  }

  method ParseNackEntries(buf: Bytes, start: nat) returns (lost: seq<int>)
    requires start <= |buf|
    ensures lost == ParseEntries(buf, start)
  {
    hide Named, GetU16;
    lost := [];
    var off := start;
    while off + 4 <= |buf|
      invariant start <= off <= |buf| && lost + ParseEntries(buf, off) == ParseEntries(buf, start)
    {
      var e := Entry(GetU16(buf, off), GetU16(buf, off + 2));
      var named := NumbersOf(e);
      assert lost + (named + ParseEntries(buf, off + 4)) == (lost + named) + ParseEntries(buf, off + 4);
      lost := lost + named;
      off := off + 4;
    }
    assert lost + [] == lost;
  }

  method NumbersOf(e: Entry) returns (named: seq<int>)
    ensures named == Named(e)
  {
    hide Bit, Following;
    ghost var goal := Named(e);
    named := [e.pid];
    var bit := 0;
    while bit < REACH
      invariant 0 <= bit <= REACH
      invariant named + Following(e.pid, e.blp, bit) == goal
    {
      FollowingStep(e.pid, e.blp, bit);
      if Bit(e.blp, bit) {
        ghost var rest := Following(e.pid, e.blp, bit + 1);
        assert named + ([e.pid + bit + 1] + rest) == (named + [e.pid + bit + 1]) + rest;
        named := named + [e.pid + bit + 1];
      }
      bit := bit + 1;
    }
    FollowingStep(e.pid, e.blp, bit);
    assert named + [] == named;
  }

  lemma FollowingStep(pid: u16, blp: u16, bit: nat)
    requires bit <= REACH
    ensures Following(pid, blp, bit) == if bit == REACH then []
              else (if Bit(blp, bit) then [pid + bit + 1] else []) + Following(pid, blp, bit + 1)
  {
  }
}
