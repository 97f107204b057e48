/** Writing a byte range into the logical efuse map by programming only the words that change
    (core/rtw_efuse.c). */
module Efuse {
  import opened Bytes

  const SECTION: nat := 8        // PGPKT_DATA_SIZE
  const VOLTAGE_AT: nat := 0x8   // kept on B and C cut chips whose voltage was adjusted

  // ---------------------------------------------------------------- word enables

  /** x & ~BIT(k) */
  function ClearBit(x: nat, k: nat): nat {
    if k == 0 then x / 2 * 2 else x % 2 + 2 * ClearBit(x / 2, k - 1)
  }

  lemma {:induction false} ClearBitIs(x: nat, k: nat, i: nat)
    ensures Bit(ClearBit(x, k), i) <==> i != k && Bit(x, i)
  {
    if i > 0 && k > 0 {
      ClearBitIs(x / 2, k - 1, i - 1);
    }
  }

  /** A word is written iff its bit in word_en is clear. */
  predicate Enabled(wordEn: nat, w: nat) {
    !Bit(wordEn, w)
  }

  lemma MaskBits(x: nat)
    requires x < 16
    ensures Bit(x, 0) == (x % 2 == 1) && Bit(x, 1) == (x / 2 % 2 == 1)
    ensures Bit(x, 2) == (x / 2 / 2 % 2 == 1) && Bit(x, 3) == (x / 2 / 2 / 2 % 2 == 1)
  {
    assert Bit(x / 2, 1) == Bit(x / 2 / 2, 0);
    assert Bit(x / 2, 2) == Bit(x / 2 / 2, 1) == Bit(x / 2 / 2 / 2, 0);
  }

  lemma AllOff(wordEn: nat)
    requires wordEn < 16
    ensures wordEn == 15 <==> forall w :: 0 <= w < 4 ==> !Enabled(wordEn, w)
  {
    MaskBits(wordEn);
    hide Bit;
    assert (forall w :: 0 <= w < 4 ==> !Enabled(wordEn, w)) <==>
           !Enabled(wordEn, 0) && !Enabled(wordEn, 1) && !Enabled(wordEn, 2) && !Enabled(wordEn, 3);
  }

  /** Efuse_CalculateWordCnts */
  method CalculateWordCnts(wordEn: nat) returns (cnts: nat)
    ensures cnts == |set w: nat | w < 4 && Enabled(wordEn, w)|
  {
    cnts := 0;
    if Enabled(wordEn, 0) { cnts := cnts + 1; }
    if Enabled(wordEn, 1) { cnts := cnts + 1; }
    if Enabled(wordEn, 2) { cnts := cnts + 1; }
    if Enabled(wordEn, 3) { cnts := cnts + 1; }
    WordsBelow(wordEn, 0);
    WordsBelow(wordEn, 1);
    WordsBelow(wordEn, 2);
    WordsBelow(wordEn, 3);
  }

  lemma WordsBelow(wordEn: nat, n: nat)
    ensures |set w: nat | w < n + 1 && Enabled(wordEn, w)|
            == |set w: nat | w < n && Enabled(wordEn, w)| + if Enabled(wordEn, n) then 1 else 0
    ensures n == 0 ==> (set w: nat | w < n && Enabled(wordEn, w)) == {}
  {
    hide Enabled;
    var below := set w: nat | w < n && Enabled(wordEn, w);
    var upto := set w: nat | w < n + 1 && Enabled(wordEn, w);
    assert upto == below + if Enabled(wordEn, n) then {n} else {};
  }

  /** Target bytes with the enabled words taken from the source. */
  function Merged(wordEn: nat, source: seq<u8>, target: seq<u8>): (r: seq<u8>)
    requires |source| == |target| == SECTION
    ensures |r| == SECTION
    ensures forall i :: 0 <= i < SECTION ==> r[i] == if Enabled(wordEn, i / 2) then source[i] else target[i]
  {
    seq(SECTION, i requires 0 <= i < SECTION => if Enabled(wordEn, i / 2) then source[i] else target[i])
  }

  /** efuse_WordEnableDataRead, on the target bytes of a larger array. */
  method WordEnableDataRead(wordEn: nat, source: array<u8>, target: array<u8>, at: nat)
    requires source.Length == SECTION && at + SECTION <= target.Length && source != target
    modifies target
    ensures target[..] == Written(old(target[..]), at, Merged(wordEn, source[..], old(target[at..at + SECTION])))
  {
    ghost var t, r := target[..], Merged(wordEn, source[..], target[at..at + SECTION]);
    CopyWord(wordEn, 0, source, target, at);
    CopyWord(wordEn, 1, source, target, at);
    CopyWord(wordEn, 2, source, target, at);
    CopyWord(wordEn, 3, source, target, at);
    hide Enabled, Merged;
    assert forall i :: 0 <= i < SECTION ==> target[at + i] == r[i];
    assert target[..] == Written(t, at, r);
  }

  method CopyWord(wordEn: nat, w: nat, source: array<u8>, target: array<u8>, at: nat)
    requires w < 4 && source.Length == SECTION && at + SECTION <= target.Length && source != target
    modifies target
    ensures forall i :: 0 <= i < target.Length ==>
              target[i] == if Enabled(wordEn, w) && at + 2 * w <= i < at + 2 * w + 2 then source[i - at] else old(target[i])
  {
    if Enabled(wordEn, w) {
      target[at + 2 * w] := source[2 * w];
      target[at + 2 * w + 1] := source[2 * w + 1];
    }
  }

  // ---------------------------------------------------------------- what a write should do

  /** Byte i is to be written and differs from the map. */
  predicate Dirty(m: seq<u8>, addr: nat, data: seq<u8>, i: nat)
    requires i < |m|
  {
    addr <= i < addr + |data| && data[i - addr] != m[i]
  }

  function Spliced(m: seq<u8>, addr: nat, data: seq<u8>, guarded: bool): (r: seq<u8>)
    requires addr + |data| <= |m|
    ensures |r| == |m|
    ensures forall i :: 0 <= i < |m| ==>
              r[i] == if addr <= i < addr + |data| && !(guarded && i == VOLTAGE_AT) then data[i - addr] else m[i]
  {
    seq(|m|, i requires 0 <= i < |m| =>
      if addr <= i < addr + |data| && !(guarded && i == VOLTAGE_AT) then data[i - addr] else m[i])
  }

  datatype Packet = Packet(section: nat, wordEn: nat, data: seq<u8>)

  /** A packet for this section: it carries the new bytes and enables just the words with a differing byte. */
  predicate PacketFor(p: Packet, m: seq<u8>, addr: nat, data: seq<u8>, guarded: bool, s: nat)
    requires addr + |data| <= |m| && SECTION * (s + 1) <= |m|
  {
    && p.section == s && p.wordEn < 16
    && p.data == Spliced(m, addr, data, guarded)[SECTION * s..SECTION * (s + 1)]
    && (forall w :: 0 <= w < 4 ==>
          (Enabled(p.wordEn, w) <==> Dirty(m, addr, data, SECTION * s + 2 * w) || Dirty(m, addr, data, SECTION * s + 2 * w + 1)))
  }

  predicate DirtySection(m: seq<u8>, addr: nat, data: seq<u8>, s: nat)
    requires SECTION * (s + 1) <= |m|
  {
    exists i :: SECTION * s <= i < SECTION * (s + 1) && Dirty(m, addr, data, i)
  }

  /** The log holds one packet for each dirty section from s0 up to s1, in order, and no other. */
  ghost predicate Programs(log: seq<Packet>, m: seq<u8>, addr: nat, data: seq<u8>, guarded: bool, s0: nat, s1: nat)
    requires addr + |data| <= |m| && s0 <= s1 && SECTION * s1 <= |m|
    decreases s1
  {
    if s0 == s1 then log == []
    else if DirtySection(m, addr, data, s1 - 1) then
      && log != [] && PacketFor(log[|log| - 1], m, addr, data, guarded, s1 - 1)
      && Programs(log[..|log| - 1], m, addr, data, guarded, s0, s1 - 1)
    else Programs(log, m, addr, data, guarded, s0, s1 - 1)
  }

  /** How many sections have to be programmed. */
  ghost function Need(m: seq<u8>, addr: nat, data: seq<u8>, s0: nat, s1: nat): nat
    requires s0 <= s1 && SECTION * s1 <= |m|
    decreases s1
  {
    if s0 == s1 then 0 else (if DirtySection(m, addr, data, s1 - 1) then 1 else 0) + Need(m, addr, data, s0, s1 - 1)
  }

  function EndSection(addr: nat, cnts: nat): nat {
    if cnts == 0 then addr / SECTION else (addr + cnts - 1) / SECTION + 1
  }

  /** No section is programmed twice, none outside the range, none that holds no differing byte. */
  lemma {:induction false} ProgramsOnce(log: seq<Packet>, m: seq<u8>, addr: nat, data: seq<u8>, guarded: bool, s0: nat, s1: nat)
    requires addr + |data| <= |m| && s0 <= s1 && SECTION * s1 <= |m|
    requires Programs(log, m, addr, data, guarded, s0, s1)
    ensures |log| == Need(m, addr, data, s0, s1)
    ensures forall i, j :: 0 <= i < j < |log| ==> log[i].section < log[j].section
    ensures forall i :: 0 <= i < |log| ==>
              && s0 <= log[i].section < s1 && DirtySection(m, addr, data, log[i].section)
              && PacketFor(log[i], m, addr, data, guarded, log[i].section)
  {
    hide DirtySection, Spliced, Enabled;
    if s0 < s1 {
      if DirtySection(m, addr, data, s1 - 1) {
        var less := log[..|log| - 1];
        ProgramsOnce(less, m, addr, data, guarded, s0, s1 - 1);
        assert forall i :: 0 <= i < |log| - 1 ==> log[i] == less[i];
      } else {
        ProgramsOnce(log, m, addr, data, guarded, s0, s1 - 1);
      }
    }
  }

  lemma {:induction false} NeedGrows(m: seq<u8>, addr: nat, data: seq<u8>, s0: nat, s: nat, s1: nat)
    requires s0 <= s <= s1 && SECTION * s1 <= |m|
    ensures Need(m, addr, data, s0, s) <= Need(m, addr, data, s0, s1)
    ensures s < s1 && DirtySection(m, addr, data, s) ==> Need(m, addr, data, s0, s) < Need(m, addr, data, s0, s1)
    decreases s1
  {
    if s < s1 {
      NeedGrows(m, addr, data, s0, s, s1 - 1);
    }
  }

  lemma NeedStep(m: seq<u8>, addr: nat, data: seq<u8>, s0: nat, s: nat)
    requires s0 <= s && SECTION * (s + 1) <= |m|
    ensures Need(m, addr, data, s0, s + 1) == Need(m, addr, data, s0, s) + if DirtySection(m, addr, data, s) then 1 else 0
  {}

  /** The sections from s0 up to s have been dealt with: what was logged since, and the map. */
  ghost predicate Upto(m: seq<u8>, addr: nat, data: seq<u8>, guarded: bool, s0: nat, s: nat,
                       log0: seq<Packet>, log: seq<Packet>, cells: seq<u8>) {
    && addr + |data| <= |m| && s0 <= s && SECTION * s <= |m|
    && |log0| <= |log| && log[..|log0|] == log0 && Programs(log[|log0|..], m, addr, data, guarded, s0, s)
    && cells == Progress(m, addr, data, guarded, s)
  }

  /** The map when the sections below s have their new contents. */
  function Progress(m: seq<u8>, addr: nat, data: seq<u8>, guarded: bool, s: nat): seq<u8>
    requires addr + |data| <= |m| && SECTION * s <= |m|
  {
    Spliced(m, addr, data, guarded)[..SECTION * s] + m[SECTION * s..]
  }

  lemma ProgressStart(m: seq<u8>, addr: nat, data: seq<u8>, guarded: bool)
    requires addr + |data| <= |m|
    ensures SECTION * (addr / SECTION) <= |m| && Progress(m, addr, data, guarded, addr / SECTION) == m
  {}

  lemma ProgressEnd(m: seq<u8>, addr: nat, data: seq<u8>, guarded: bool)
    requires addr + |data| <= |m| && |m| % SECTION == 0
    ensures var s := EndSection(addr, |data|);
            SECTION * s <= |m| && Progress(m, addr, data, guarded, s) == Spliced(m, addr, data, guarded)
  {}

  /** Programming a section's packet moves the boundary; a section without differing bytes needs none. */
  lemma ProgressStep(m: seq<u8>, addr: nat, data: seq<u8>, guarded: bool, s: nat, p: Packet)
    requires addr + |data| <= |m| && SECTION * (s + 1) <= |m|
    requires PacketFor(p, m, addr, data, guarded, s)
    ensures var c := Progress(m, addr, data, guarded, s);
            Written(c, SECTION * s, Merged(p.wordEn, p.data, c[SECTION * s..SECTION * s + SECTION]))
            == Progress(m, addr, data, guarded, s + 1)
    ensures p.wordEn == 15 <==> !DirtySection(m, addr, data, s)
    ensures p.wordEn == 15 ==> Progress(m, addr, data, guarded, s) == Progress(m, addr, data, guarded, s + 1)
  {
    var d, a := Spliced(m, addr, data, guarded), SECTION * s;
    MergedIsNew(m, addr, data, guarded, s, p);
    AllOff(p.wordEn);
    WordsOfSection(m, addr, data, s, p.wordEn);
    hide Dirty, Merged, Spliced, Enabled;
    SectionStep(m, d, a);
    if p.wordEn == 15 {
      MergedNothing(p.wordEn, p.data, m[a..a + SECTION]);
    }
  }

  lemma MergedNothing(wordEn: nat, source: seq<u8>, target: seq<u8>)
    requires |source| == |target| == SECTION
    requires forall w :: 0 <= w < 4 ==> !Enabled(wordEn, w)
    ensures Merged(wordEn, source, target) == target
  {}

  lemma SectionStep(m: seq<u8>, d: seq<u8>, a: nat)
    requires |d| == |m| && a + SECTION <= |m|
    ensures (d[..a] + m[a..])[a..a + SECTION] == m[a..a + SECTION]
    ensures Written(d[..a] + m[a..], a, d[a..a + SECTION]) == d[..a + SECTION] + m[a + SECTION..]
    ensures d[a..a + SECTION] == m[a..a + SECTION] ==> d[..a] + m[a..] == d[..a + SECTION] + m[a + SECTION..]
  {
    assert m[a..] == m[a..a + SECTION] + m[a + SECTION..];
    assert d[..a + SECTION] == d[..a] + d[a..a + SECTION];
  }

  /** Words that are not enabled hold the new bytes already. */
  lemma MergedIsNew(m: seq<u8>, addr: nat, data: seq<u8>, guarded: bool, s: nat, p: Packet)
    requires addr + |data| <= |m| && SECTION * (s + 1) <= |m|
    requires PacketFor(p, m, addr, data, guarded, s)
    ensures var a := SECTION * s;
            Merged(p.wordEn, p.data, m[a..a + SECTION]) == Spliced(m, addr, data, guarded)[a..a + SECTION]
  {
    var a := SECTION * s;
    assert |p.data| == SECTION;
    hide *;
    var r, d := Merged(p.wordEn, p.data, m[a..a + SECTION]), Spliced(m, addr, data, guarded)[a..a + SECTION];
    forall i | 0 <= i < SECTION ensures r[i] == d[i] {
      NewByte(m, addr, data, guarded, s, p, i);
    }
  }

  lemma NewByte(m: seq<u8>, addr: nat, data: seq<u8>, guarded: bool, s: nat, p: Packet, i: nat)
    requires addr + |data| <= |m| && SECTION * (s + 1) <= |m| && i < SECTION && |p.data| == SECTION
    requires PacketFor(p, m, addr, data, guarded, s)
    ensures var a := SECTION * s;
            Merged(p.wordEn, p.data, m[a..a + SECTION])[i] == Spliced(m, addr, data, guarded)[a..a + SECTION][i]
  {
    hide Enabled, Merged, Spliced;
    var w, d, a := i / 2, Spliced(m, addr, data, guarded), SECTION * s;
    assert Enabled(p.wordEn, w) <==> Dirty(m, addr, data, a + 2 * w) || Dirty(m, addr, data, a + 2 * w + 1);
    var old', new' := m[a..a + SECTION], d[a..a + SECTION];
    assert p.data[i] == new'[i] == d[a + i] && old'[i] == m[a + i];
    assert Merged(p.wordEn, p.data, old')[i] == if Enabled(p.wordEn, w) then p.data[i] else old'[i];
    if !Enabled(p.wordEn, w) {
      assert i == 2 * w || i == 2 * w + 1;
      assert !Dirty(m, addr, data, a + i);
      assert d[a + i] == m[a + i];
    }
  }

  lemma WordsOfSection(m: seq<u8>, addr: nat, data: seq<u8>, s: nat, wordEn: nat)
    requires SECTION * (s + 1) <= |m|
    requires forall w :: 0 <= w < 4 ==>
               (Enabled(wordEn, w) <==> Dirty(m, addr, data, SECTION * s + 2 * w) || Dirty(m, addr, data, SECTION * s + 2 * w + 1))
    ensures DirtySection(m, addr, data, s) <==> exists w :: 0 <= w < 4 && Enabled(wordEn, w)
  {
    if DirtySection(m, addr, data, s) {
      var i :| SECTION * s <= i < SECTION * (s + 1) && Dirty(m, addr, data, i);
      var w := (i - SECTION * s) / 2;
      assert i == SECTION * s + 2 * w || i == SECTION * s + 2 * w + 1;
      assert Enabled(wordEn, w);
    }
    if w :| 0 <= w < 4 && Enabled(wordEn, w) {
      assert Dirty(m, addr, data, SECTION * s + 2 * w) || Dirty(m, addr, data, SECTION * s + 2 * w + 1);
    }
  }

  /** Through the last section, the map is the old one with the range replaced. */
  lemma UptoEnd(m: seq<u8>, addr: nat, data: seq<u8>, guarded: bool, log0: seq<Packet>, log: seq<Packet>, c: seq<u8>)
    requires |m| % SECTION == 0 && Upto(m, addr, data, guarded, addr / SECTION, EndSection(addr, |data|), log0, log, c)
    ensures c == Spliced(m, addr, data, guarded)
  {
    ProgressEnd(m, addr, data, guarded);
  }

  /** Programming a dirty section, or passing over a clean one. */
  lemma UptoNext(m: seq<u8>, addr: nat, data: seq<u8>, guarded: bool, s0: nat, s: nat,
                 log0: seq<Packet>, log: seq<Packet>, c: seq<u8>, p: Packet)
    requires Upto(m, addr, data, guarded, s0, s, log0, log, c)
    requires SECTION * (s + 1) <= |m| && PacketFor(p, m, addr, data, guarded, s)
    ensures |c| == |m| && (p.wordEn == 15 <==> !DirtySection(m, addr, data, s))
    ensures if p.wordEn == 15 then Upto(m, addr, data, guarded, s0, s + 1, log0, log, c)
            else Upto(m, addr, data, guarded, s0, s + 1, log0, log + [p],
                      Written(c, SECTION * s, Merged(p.wordEn, p.data, c[SECTION * s..SECTION * s + SECTION])))
  {
    ProgressStep(m, addr, data, guarded, s, p);
    hide Progress, DirtySection, PacketFor, Merged, Enabled;
    var more := log + [p];
    assert more[|log0|..] == log[|log0|..] + [p] && more[..|log0|] == log[..|log0|];
    assert (log[|log0|..] + [p])[..|log| - |log0|] == log[|log0|..];
  }

  // ---------------------------------------------------------------- the same, written out

  /** The replaced range, but for byte 8 when it is guarded. */
  lemma SplicedMeans(m: seq<u8>, addr: nat, data: seq<u8>, guarded: bool, i: nat)
    requires addr + |data| <= |m| && i < |m|
    ensures Spliced(m, addr, data, guarded)[i]
            == if addr <= i && i - addr < |data| && !(guarded && i == 8) then data[i - addr] else m[i]
  {}

  /** A section has to be programmed if one of its eight bytes is in the range and differs. */
  lemma DirtyMeans(m: seq<u8>, addr: nat, data: seq<u8>, s: nat)
    requires 8 * (s + 1) <= |m|
    ensures DirtySection(m, addr, data, s)
            <==> exists i :: 8 * s <= i < 8 * s + 8 && addr <= i < addr + |data| && data[i - addr] != m[i]
  {
    if i :| 8 * s <= i < 8 * s + 8 && addr <= i < addr + |data| && data[i - addr] != m[i] {
      assert Dirty(m, addr, data, i);
    }
  }

  /** Bit w of a packet's enables is clear exactly if one of the two bytes of word w is in the range and differs. */
  lemma PacketMeans(p: Packet, m: seq<u8>, addr: nat, data: seq<u8>, guarded: bool, s: nat, w: nat)
    requires addr + |data| <= |m| && 8 * (s + 1) <= |m| && PacketFor(p, m, addr, data, guarded, s) && w < 4
    ensures p.section == s && p.wordEn < 16 && |p.data| == 8
    ensures forall i :: 0 <= i < 8 ==> p.data[i] == Spliced(m, addr, data, guarded)[8 * s + i]
    ensures p.wordEn / [1, 2, 4, 8][w] % 2 == 0
            <==> exists i :: 8 * s + 2 * w <= i < 8 * s + 2 * w + 2 && addr <= i < addr + |data| && data[i - addr] != m[i]
  {
    MaskIs(p.wordEn, w);
    hide Enabled, Bit, Spliced;
    var a := 8 * s + 2 * w;
    assert Enabled(p.wordEn, w) <==> Dirty(m, addr, data, a) || Dirty(m, addr, data, a + 1);
    if i :| a <= i < a + 2 && addr <= i < addr + |data| && data[i - addr] != m[i] {
      assert Dirty(m, addr, data, i) && (i == a || i == a + 1);
    }
  }

  lemma MaskIs(x: nat, w: nat)
    requires x < 16 && w < 4
    ensures Enabled(x, w) <==> x / [1, 2, 4, 8][w] % 2 == 0
  {
    MaskBits(x);
    hide Bit;
    assert x / 2 / 2 == x / 4 && x / 2 / 2 / 2 == x / 8;
  }

  /** How many packets a write needs: one for each section that has to be programmed. */
  lemma {:induction false} NeedCounts(m: seq<u8>, addr: nat, data: seq<u8>, s0: nat, s1: nat)
    requires s0 <= s1 && SECTION * s1 <= |m|
    ensures Need(m, addr, data, s0, s1) == |set s | s0 <= s < s1 && DirtySection(m, addr, data, s)|
    decreases s1
  {
    hide DirtySection;
    var now := set s | s0 <= s < s1 && DirtySection(m, addr, data, s);
    if s0 == s1 {
      assert now == {};
    } else {
      NeedCounts(m, addr, data, s0, s1 - 1);
      var less := set s | s0 <= s < s1 - 1 && DirtySection(m, addr, data, s);
      assert now == less + if DirtySection(m, addr, data, s1 - 1) then {s1 - 1} else {};
    }
  }

  /** Every section up to s that has to be programmed was, behind what was logged before; the map is new up to there
      and old behind. */
  lemma UptoMeans(m: seq<u8>, addr: nat, data: seq<u8>, guarded: bool, s0: nat, s: nat, log0: seq<Packet>, log: seq<Packet>, c: seq<u8>)
    requires Upto(m, addr, data, guarded, s0, s, log0, log, c)
    ensures |c| == |m| && 8 * s <= |m|
    ensures forall i :: 0 <= i < |m| ==> c[i] == if i < 8 * s then Spliced(m, addr, data, guarded)[i] else m[i]
    ensures log0 <= log
    ensures forall i :: |log0| <= i < |log| ==>
              && s0 <= log[i].section < s && DirtySection(m, addr, data, log[i].section)
              && PacketFor(log[i], m, addr, data, guarded, log[i].section)
    ensures forall x :: s0 <= x < s && DirtySection(m, addr, data, x) ==> exists i :: |log0| <= i < |log| && log[i].section == x
  {
    var new' := log[|log0|..];
    ProgramsOnce(new', m, addr, data, guarded, s0, s);
    hide DirtySection, PacketFor, Programs;
    forall i | |log0| <= i < |log|
      ensures s0 <= log[i].section < s && DirtySection(m, addr, data, log[i].section)
      ensures PacketFor(log[i], m, addr, data, guarded, log[i].section)
    {
      assert log[i] == new'[i - |log0|];
    }
    forall x | s0 <= x < s && DirtySection(m, addr, data, x) ensures exists i :: |log0| <= i < |log| && log[i].section == x {
      var j := ProgramsAll(new', m, addr, data, guarded, s0, s, x);
      assert log[|log0| + j].section == x;
    }
  }

  lemma {:induction false} ProgramsAll(log: seq<Packet>, m: seq<u8>, addr: nat, data: seq<u8>, guarded: bool, s0: nat, s1: nat, x: nat)
    returns (j: nat)
    requires addr + |data| <= |m| && s0 <= x < s1 && SECTION * s1 <= |m|
    requires Programs(log, m, addr, data, guarded, s0, s1) && DirtySection(m, addr, data, x)
    ensures j < |log| && log[j].section == x
    decreases s1
  {
    hide DirtySection, Spliced, Enabled;
    if x == s1 - 1 {
      j := |log| - 1;
    } else if DirtySection(m, addr, data, s1 - 1) {
      j := ProgramsAll(log[..|log| - 1], m, addr, data, guarded, s0, s1 - 1, x);
    } else {
      j := ProgramsAll(log, m, addr, data, guarded, s0, s1 - 1, x);
    }
  }

  // ---------------------------------------------------------------- the inner loop

  /** The section at a has been looked at up to position q. */
  predicate Filled(m: seq<u8>, addr: nat, data: seq<u8>, d: seq<u8>, a: nat, q: nat, wordEn: nat, nd: seq<u8>) {
    && |m| == |d| && a + SECTION <= |m| && |nd| == SECTION && wordEn < 16
    && (forall x :: 0 <= x < SECTION ==> nd[x] == if a + x < q then d[a + x] else m[a + x])
    && (forall w :: 0 <= w < 4 ==>
          (Enabled(wordEn, w) <==>
            || (a + 2 * w < q && Dirty(m, addr, data, a + 2 * w))
            || (a + 2 * w + 1 < q && Dirty(m, addr, data, a + 2 * w + 1))))
  }

  lemma FilledStart(m: seq<u8>, addr: nat, data: seq<u8>, guarded: bool, a: nat, q: nat, nd: seq<u8>)
    requires addr + |data| <= |m| && a + SECTION <= |m| && |nd| == SECTION && a <= q
    requires q == addr || q == a
    requires forall x :: 0 <= x < SECTION ==> nd[x] == m[a + x]
    ensures Filled(m, addr, data, Spliced(m, addr, data, guarded), a, q, 15, nd)
  {
    AllOff(15);
    hide Enabled;
  }

  lemma FilledStep(m: seq<u8>, addr: nat, data: seq<u8>, guarded: bool, a: nat, q: nat, wordEn: nat, nd: seq<u8>)
    requires addr + |data| <= |m| && a <= q < a + SECTION && addr <= q < addr + |data|
    requires Filled(m, addr, data, Spliced(m, addr, data, guarded), a, q, wordEn, nd)
    ensures var i, d := q - a, Spliced(m, addr, data, guarded);
            if data[q - addr] != m[q]
            then Filled(m, addr, data, d, a, q + 1, ClearBit(wordEn, i / 2),
                        nd[i := if q == VOLTAGE_AT && guarded then m[q] else data[q - addr]])
            else Filled(m, addr, data, d, a, q + 1, wordEn, nd)
  {
    var i := q - a;
    ClearedMask(wordEn, i / 2);
    hide Enabled, ClearBit;
    var mask := if Dirty(m, addr, data, q) then ClearBit(wordEn, i / 2) else wordEn;
    forall w | 0 <= w < 4
      ensures Enabled(mask, w) <==>
                || (a + 2 * w < q + 1 && Dirty(m, addr, data, a + 2 * w))
                || (a + 2 * w + 1 < q + 1 && Dirty(m, addr, data, a + 2 * w + 1))
    {
      assert w == i / 2 <==> q == a + 2 * w || q == a + 2 * w + 1;
    }
  }

  lemma FilledEnd(m: seq<u8>, addr: nat, data: seq<u8>, guarded: bool, s: nat, q: nat, wordEn: nat, nd: seq<u8>)
    requires addr + |data| <= |m| && SECTION * s <= q && (q == addr + |data| || q == SECTION * (s + 1))
    requires Filled(m, addr, data, Spliced(m, addr, data, guarded), SECTION * s, q, wordEn, nd)
    ensures SECTION * (s + 1) <= |m| && PacketFor(Packet(s, wordEn, nd), m, addr, data, guarded, s)
  {
    hide Enabled;
    var d, a := Spliced(m, addr, data, guarded), SECTION * s;
    forall x {:trigger nd[x]} | 0 <= x < SECTION ensures nd[x] == d[a + x] {
      assert q <= a + x ==> d[a + x] == m[a + x];
    }
    assert nd == d[a..a + SECTION];
  }

  // ---------------------------------------------------------------- the outer loop

  /** Byte idx of the data is the next one, in this section; at the end the section is the one behind. */
  predicate InPlace(addr: nat, cnts: nat, idx: nat, section: nat) {
    && idx <= cnts && addr / SECTION <= section <= EndSection(addr, cnts)
    && (idx == cnts ==> section == EndSection(addr, cnts))
    && (idx < cnts ==> section < EndSection(addr, cnts) && SECTION * section <= addr + idx < SECTION * (section + 1))
    && (idx == 0 || idx == cnts || addr + idx == SECTION * section)
  }

  lemma PlaceStart(addr: nat, cnts: nat)
    ensures InPlace(addr, cnts, 0, addr / SECTION)
  {}

  lemma PlaceNext(addr: nat, cnts: nat, idx: nat, section: nat, idx': nat)
    requires InPlace(addr, cnts, idx, section) && idx < idx' <= cnts
    requires (idx' == cnts || addr + idx' == SECTION * (section + 1)) && addr + idx' <= SECTION * (section + 1)
    ensures InPlace(addr, cnts, idx', section + 1)
  {}

  /** The eight-bit section counter of the driver does not wrap on a range in the first 2048 bytes. */
  lemma PlaceInMap(addr: nat, cnts: nat, idx: nat, section: nat, len: nat)
    requires InPlace(addr, cnts, idx, section) && addr + cnts <= len && addr + cnts <= 2048 && len % SECTION == 0
    ensures SECTION * EndSection(addr, cnts) <= len && addr / SECTION <= section <= EndSection(addr, cnts)
    ensures idx < cnts ==>
              && section % 256 == section < EndSection(addr, cnts) && SECTION * (section + 1) <= len
              && SECTION * section <= addr + idx < SECTION * (section + 1) && (idx == 0 || addr + idx == SECTION * section)
    ensures idx <= cnts && (idx == cnts ==> section == EndSection(addr, cnts))
  {}

  // ---------------------------------------------------------------- the code

  /** The chip as the driver sees it: a logical map, the packets programmed so far, and room for more. */
  class Chip {
    const cells: array<u8>
    var log: seq<Packet>
    var room: nat

    constructor (cells: array<u8>, room: nat)
      ensures this.cells == cells && this.room == room && log == []
    {
      this.cells, this.room, log := cells, room, [];
    }

    /** Efuse_PgPacketWrite, by its contract: merge the enabled words, or fail and leave the map alone. */
    method PgPacketWrite(section: nat, wordEn: nat, newdata: array<u8>) returns (ok: bool)
      requires newdata.Length == SECTION && SECTION * (section + 1) <= cells.Length && newdata != cells
      modifies this`log, this`room, cells
      ensures ok == (old(room) > 0)
      ensures ok ==>
                && room == old(room) - 1 && log == old(log) + [Packet(section, wordEn, newdata[..])]
                && cells[..] == Written(old(cells[..]), SECTION * section,
                                        Merged(wordEn, newdata[..], old(cells[SECTION * section..SECTION * section + SECTION])))
      ensures !ok ==> room == old(room) && log == old(log) && cells[..] == old(cells[..])
    {
      ok := room > 0;
      if ok {
        WordEnableDataRead(wordEn, newdata, cells, SECTION * section);
        log, room := log + [Packet(section, wordEn, newdata[..])], room - 1;
      }
    }

    /** The body of the inner loop. */
    method FillByte(m: seq<u8>, addr: nat, data: seq<u8>, guarded: bool, ghost a: nat, idx: nat, i: nat, was: nat, newdata: array<u8>)
      returns (wordEn: nat)
      requires addr + |data| <= |m| && idx < |data| && i < SECTION && a + i == addr + idx && newdata.Length == SECTION
      requires Filled(m, addr, data, Spliced(m, addr, data, guarded), a, addr + idx, was, newdata[..])
      modifies newdata
      ensures Filled(m, addr, data, Spliced(m, addr, data, guarded), a, addr + idx + 1, wordEn, newdata[..])
    {
      ghost var nd := newdata[..];
      FilledStep(m, addr, data, guarded, a, addr + idx, was, nd);
      hide Filled, Spliced, ClearBit;
      wordEn := was;
      if data[idx] != m[addr + idx] {
        wordEn := ClearBit(wordEn, i / 2);
        newdata[i] := data[idx];
        if addr + idx == VOLTAGE_AT && guarded {
          newdata[i] := m[addr + idx];
        }
        assert newdata[..] == nd[i := newdata[i]];
      }
    }

    /** The inner loop: collect the new bytes of one section and the words they touch. */
    method FillSection(m: seq<u8>, addr: nat, data: seq<u8>, guarded: bool, start: nat, section: nat, newdata: array<u8>)
      returns (idx: nat, wordEn: nat)
      requires addr + |data| <= |m| && SECTION * (section + 1) <= |m| && newdata.Length == SECTION
      requires start < |data| && SECTION * section <= addr + start < SECTION * (section + 1)
      requires start == 0 || addr + start == SECTION * section
      modifies newdata
      ensures PacketFor(Packet(section, wordEn, newdata[..]), m, addr, data, guarded, section)
      ensures start < idx <= |data| && (idx == |data| || addr + idx == SECTION * (section + 1))
      ensures addr + idx <= SECTION * (section + 1)
    {
      var a := SECTION * section;
      wordEn, idx := 15, start;
      ghost var d := Spliced(m, addr, data, guarded);
      for k := 0 to SECTION
        invariant forall x :: 0 <= x < k ==> newdata[x] == m[a + x]
      {
        newdata[k] := m[a + k];
      }
      FilledStart(m, addr, data, guarded, a, addr + start, newdata[..]);
      hide Filled, Spliced, ClearBit, PacketFor;
      var i := addr + idx - a;
      while i < SECTION && idx < |data|
        invariant i <= SECTION && start <= idx <= |data| && a + i == addr + idx && (idx == start ==> i < SECTION)
        invariant Filled(m, addr, data, d, a, addr + idx, wordEn, newdata[..])
        decreases SECTION - i
      {
        wordEn := FillByte(m, addr, data, guarded, a, idx, i, wordEn, newdata);
        i, idx := i + 1, idx + 1;
      }
      FilledEnd(m, addr, data, guarded, section, addr + idx, wordEn, newdata[..]);
    }

    /** One round of the outer loop. */
    method WriteSection(m: seq<u8>, addr: nat, data: seq<u8>, guarded: bool, start: nat, section: nat, newdata: array<u8>,
                        ghost s0: nat, ghost log0: seq<Packet>)
      returns (ok: bool, idx: nat)
      requires addr + |data| <= |m| == cells.Length && SECTION * (section + 1) <= |m| && newdata.Length == SECTION
      requires start < |data| && SECTION * section <= addr + start < SECTION * (section + 1)
      requires (start == 0 || addr + start == SECTION * section) && newdata != cells
      requires Upto(m, addr, data, guarded, s0, section, log0, log, cells[..])
      modifies this`log, this`room, cells, newdata
      ensures var dirty := DirtySection(m, addr, data, section);
              && ok == (dirty ==> old(room) > 0)
              && room == old(room) - (if dirty && ok then 1 else 0)
              && Upto(m, addr, data, guarded, s0, if ok then section + 1 else section, log0, log, cells[..])
      ensures start < idx <= |data| && (idx == |data| || addr + idx == SECTION * (section + 1))
      ensures addr + idx <= SECTION * (section + 1)
    {
      var wordEn;
      idx, wordEn := FillSection(m, addr, data, guarded, start, section, newdata);
      ghost var p := Packet(section, wordEn, newdata[..]);
      UptoNext(m, addr, data, guarded, s0, section, log0, log, cells[..], p);
      hide *;
      ok := true;
      if wordEn != 15 {
        ok := PgPacketWrite(section, wordEn, newdata);
      }
    }

    /** rtw_efuse_map_write; rtw_BT_efuse_map_write is the same without the guarded byte. */
    method MapWrite(addr: nat, data: seq<u8>, guarded: bool, readable: bool) returns (ok: bool)
      requires addr + |data| <= 2048 || addr + |data| > cells.Length
      modifies this`log, this`room, cells
      ensures addr + |data| > cells.Length || cells.Length % SECTION != 0 || !readable ==>
                !ok && cells[..] == old(cells[..]) && log == old(log)
      ensures addr + |data| <= cells.Length && cells.Length % SECTION == 0 && readable ==>
                var m, s0, s1 := old(cells[..]), addr / SECTION, EndSection(addr, |data|);
                && SECTION * s1 <= |m| && s0 <= s1
                && ok == (Need(m, addr, data, s0, s1) <= old(room))
                && (ok ==> cells[..] == Spliced(m, addr, data, guarded))
                && (ok ==> Upto(m, addr, data, guarded, s0, s1, old(log), log, cells[..]))
                && (!ok ==> exists s :: s0 <= s < s1 && DirtySection(m, addr, data, s)
                                        && Upto(m, addr, data, guarded, s0, s, old(log), log, cells[..]))
    {
      if addr + |data| > cells.Length || cells.Length % SECTION != 0 || !readable {
        return false;
      }
      var m := cells[..];
      ghost var s0, s1, log0, room0 := addr / SECTION, EndSection(addr, |data|), log, room;
      ProgressStart(m, addr, data, guarded);
      ProgressEnd(m, addr, data, guarded);
      assert log0[|log0|..] == [];
      assert Upto(m, addr, data, guarded, s0, s0, log0, log, cells[..]);
      var newdata := new u8[SECTION];
      var idx, offset: nat := 0, addr / SECTION;
      PlaceStart(addr, |data|);
      PlaceInMap(addr, |data|, idx, offset, |m|);
      assert Need(m, addr, data, s0, s0) == 0;
      hide *;
      while idx < |data|
        invariant InPlace(addr, |data|, idx, offset) && s0 <= offset && SECTION * offset <= |m|
        invariant Upto(m, addr, data, guarded, s0, offset, log0, log, cells[..])
        invariant room == room0 - Need(m, addr, data, s0, offset)
        decreases |data| - idx
      {
        PlaceInMap(addr, |data|, idx, offset, |m|);
        NeedGrows(m, addr, data, s0, offset, s1);
        NeedStep(m, addr, data, s0, offset);
        ghost var idx0 := idx;
        ok, idx := WriteSection(m, addr, data, guarded, idx, offset % 256, newdata, s0, log0);
        if !ok {
          return;
        }
        PlaceNext(addr, |data|, idx0, offset, idx);
        offset := offset + 1;
      }
      PlaceInMap(addr, |data|, idx, offset, |m|);
      UptoEnd(m, addr, data, guarded, log0, log, cells[..]);
      ok := true;
    }
  }

  lemma ClearedMask(x: nat, k: nat)
    requires x < 16 && k < 4
    ensures ClearBit(x, k) < 16
    ensures forall w :: 0 <= w < 4 ==> (Enabled(ClearBit(x, k), w) <==> w == k || Enabled(x, w))
  {
    ClearBitSmaller(x, k);
    forall w | 0 <= w < 4 ensures Enabled(ClearBit(x, k), w) <==> w == k || Enabled(x, w) {
      ClearBitIs(x, k, w);
    }
  }

  lemma {:induction false} ClearBitSmaller(x: nat, k: nat)
    ensures ClearBit(x, k) <= x
  {
    if k > 0 {
      ClearBitSmaller(x / 2, k - 1);
    }
  }
}
