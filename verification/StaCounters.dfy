/** Station capability counters of an access point and the beacon bits derived from them (core/rtw_ap.c). */
module StaCounters {
  import opened Bytes

  /** The *_set flags of a station; each has a counter num_sta_*. */
  datatype Flag = NoShortPreamble | NonErp | NoShortSlot | NoHtGf | NoHt | Ht20

  /** What a station announces when it associates. */
  datatype Caps = Caps(shortPreamble: bool, nonErp: bool, shortSlot: bool, ht: bool, greenfield: bool, width40: bool)

  datatype Counts = Counts(noShortPreamble: int, nonErp: int, noShortSlot: int, noHtGf: int, noHt: int, ht20: int)

  /** The stations with the flags they hold, and the counters. */
  datatype Tally = Tally(stas: map<nat, set<Flag>>, num: Counts)

  /** The data byte of the ERP element: bits 0, 1 and 2, and the others. */
  datatype Erp = Erp(nonErpPresent: bool, useProtection: bool, barker: bool, reserved: nat)

  /** ht_op_mode: bits 2 and 4, the two-bit operation mode, and the others. */
  datatype OpMode = OpMode(nonGf: bool, nonHt: bool, mode: nat, others: nat)

  const PURE := 0
  const MAY_BE_LEGACY := 1
  const HT20_ASSOCED := 2
  const MIXED := 3

  /** started: bstart_bss; erp: the beacon's element; width40: the access point's own capability. */
  datatype Ap = Ap(tally: Tally, started: bool, erpEnable: bool, erp: Option<Erp>,
                   htOption: bool, width40: bool, olbcHt: bool, opMode: OpMode)

  // ---------------------------------------------------------------- counters count

  function Num(c: Counts, k: Flag): int {
    match k
    case NoShortPreamble => c.noShortPreamble
    case NonErp => c.nonErp
    case NoShortSlot => c.noShortSlot
    case NoHtGf => c.noHtGf
    case NoHt => c.noHt
    case Ht20 => c.ht20
  }

  function Add(c: Counts, k: Flag, d: int): (r: Counts)
    ensures forall j :: Num(r, j) == Num(c, j) + if j == k then d else 0
  {
    match k
    case NoShortPreamble => c.(noShortPreamble := c.noShortPreamble + d)
    case NonErp => c.(nonErp := c.nonErp + d)
    case NoShortSlot => c.(noShortSlot := c.noShortSlot + d)
    case NoHtGf => c.(noHtGf := c.noHtGf + d)
    case NoHt => c.(noHt := c.noHt + d)
    case Ht20 => c.(ht20 := c.ht20 + d)
  }

  function Holders(stas: map<nat, set<Flag>>, k: Flag): set<nat> {
    set i | i in stas && k in stas[i]
  }

  /** Each counter is the number of stations that hold its flag. */
  ghost predicate Counted(t: Tally) {
    forall k: Flag :: Num(t.num, k) == |Holders(t.stas, k)|
  }

  function WithFlag(s: set<Flag>, k: Flag, on: bool): set<Flag> {
    if on then s + {k} else s - {k}
  }

  /** Bring one flag of a station in line and step its counter if that changes it. */
  function Put(t: Tally, id: nat, k: Flag, on: bool): (r: Tally)
    requires id in t.stas
    ensures r.stas.Keys == t.stas.Keys
  {
    if (k in t.stas[id]) == on then t
    else Tally(t.stas[id := WithFlag(t.stas[id], k, on)], Add(t.num, k, if on then 1 else -1))
  }

  lemma HoldersPut(stas: map<nat, set<Flag>>, id: nat, k: Flag, on: bool, j: Flag)
    requires id in stas
    ensures var h := Holders(stas[id := WithFlag(stas[id], k, on)], j);
            h == if j != k then Holders(stas, j) else if on then Holders(stas, j) + {id} else Holders(stas, j) - {id}
  {}

  lemma PutCounts(t: Tally, id: nat, k: Flag, on: bool)
    requires Counted(t) && id in t.stas
    ensures var r := Put(t, id, k, on);
            && Counted(r) && r.stas == t.stas[id := WithFlag(t.stas[id], k, on)]
            && (forall j :: j != k ==> Num(r.num, j) == Num(t.num, j))
  {
    var r := Put(t, id, k, on);
    if (k in t.stas[id]) == on {
      assert WithFlag(t.stas[id], k, on) == t.stas[id];
      assert t.stas[id := t.stas[id]] == t.stas;
    } else {
      forall j: Flag ensures Num(r.num, j) == |Holders(r.stas, j)| {
        HoldersPut(t.stas, id, k, on, j);
        assert id in Holders(t.stas, k) <==> k in t.stas[id];
      }
    }
  }

  lemma PutStep(t: Tally, id: nat, k: Flag, on: bool)
    requires Counted(t) && id in t.stas
    ensures var n, n' := Num(t.num, k), Num(Put(t, id, k, on).num, k);
            n >= 0 && n' == (if (k in t.stas[id]) == on then n else if on then n + 1 else n - 1) && n' >= 0
  {
    PutCounts(t, id, k, on);
  }

  /** bss_cap_update_on_sta_join, on flags and counters: the greenfield and width flags are set but not cleared. */
  function Joined(t: Tally, id: nat, c: Caps): Tally
    requires id in t.stas
  {
    JoinedRest(JoinedErp(t, id, c), id, c)
  }

  /** The part behind the ERP update. */
  function JoinedRest(t: Tally, id: nat, c: Caps): (r: Tally)
    requires id in t.stas
    ensures r.stas.Keys == t.stas.Keys
  {
    var t2 := Put(t, id, NoShortSlot, !c.shortSlot);
    var t3 := Put(t2, id, NoHt, !c.ht);
    var t4 := if c.ht && !c.greenfield then Put(t3, id, NoHtGf, true) else t3;
    if c.ht && !c.width40 then Put(t4, id, Ht20, true) else t4
  }

  /** The part up to the ERP update. */
  function JoinedErp(t: Tally, id: nat, c: Caps): (r: Tally)
    requires id in t.stas
    ensures r.stas.Keys == t.stas.Keys
  {
    Put(Put(t, id, NoShortPreamble, !c.shortPreamble), id, NonErp, c.nonErp)
  }

  function LeftErp(t: Tally, id: nat): (r: Tally)
    requires id in t.stas
    ensures r.stas.Keys == t.stas.Keys
  {
    Put(Put(t, id, NoShortPreamble, false), id, NonErp, false)
  }

  /** bss_cap_update_on_sta_leave, on flags and counters. */
  function Left(t: Tally, id: nat): Tally
    requires id in t.stas
  {
    Put(Put(Put(Put(LeftErp(t, id), id, NoShortSlot, false), id, NoHtGf, false), id, NoHt, false), id, Ht20, false)
  }

  /** The flags a station holds after it associated, perhaps again. */
  function FlagsAfter(s: set<Flag>, c: Caps): set<Flag> {
    var s1 := WithFlag(WithFlag(s, NoShortPreamble, !c.shortPreamble), NonErp, c.nonErp);
    var s2 := WithFlag(WithFlag(s1, NoShortSlot, !c.shortSlot), NoHt, !c.ht);
    var s3 := if c.ht && !c.greenfield then WithFlag(s2, NoHtGf, true) else s2;
    if c.ht && !c.width40 then WithFlag(s3, Ht20, true) else s3
  }

  lemma FlagsAfterAre(s: set<Flag>, c: Caps)
    ensures var r := FlagsAfter(s, c);
            && (NoShortPreamble in r <==> !c.shortPreamble) && (NonErp in r <==> c.nonErp)
            && (NoShortSlot in r <==> !c.shortSlot) && (NoHt in r <==> !c.ht)
            && (NoHtGf in r <==> NoHtGf in s || (c.ht && !c.greenfield))
            && (Ht20 in r <==> Ht20 in s || (c.ht && !c.width40))
  {}

  lemma PutTwice(m: map<nat, set<Flag>>, id: nat, x: set<Flag>, y: set<Flag>)
    ensures m[id := x][id := y] == m[id := y]
  {}

  lemma JoinedErpCounts(t: Tally, id: nat, c: Caps)
    requires Counted(t) && id in t.stas
    ensures var r := JoinedErp(t, id, c);
            && Counted(r) && r.stas == t.stas[id := WithFlag(WithFlag(t.stas[id], NoShortPreamble, !c.shortPreamble), NonErp, c.nonErp)]
  {
    hide Put, Counted;
    var t1 := Put(t, id, NoShortPreamble, !c.shortPreamble);
    PutCounts(t, id, NoShortPreamble, !c.shortPreamble);
    PutCounts(t1, id, NonErp, c.nonErp);
    PutTwice(t.stas, id, t1.stas[id], WithFlag(t1.stas[id], NonErp, c.nonErp));
  }

  lemma JoinedCounts(t: Tally, id: nat, c: Caps)
    requires Counted(t) && id in t.stas
    ensures var r := Joined(t, id, c);
            && Counted(r) && r.stas == t.stas[id := FlagsAfter(t.stas[id], c)]
            && r.num.nonErp == JoinedErp(t, id, c).num.nonErp
            && r.num.noShortPreamble == JoinedErp(t, id, c).num.noShortPreamble
  {
    var t1 := JoinedErp(t, id, c);
    JoinedErpCounts(t, id, c);
    hide Put, Counted, JoinedErp;
    var t2 := Put(t1, id, NoShortSlot, !c.shortSlot);
    PutCounts(t1, id, NoShortSlot, !c.shortSlot);
    SameNums(t1, t2, NoShortSlot);
    PutTwice(t.stas, id, t1.stas[id], t2.stas[id]);
    var t3 := Put(t2, id, NoHt, !c.ht);
    PutCounts(t2, id, NoHt, !c.ht);
    SameNums(t2, t3, NoHt);
    PutTwice(t.stas, id, t2.stas[id], t3.stas[id]);
    var t4 := if c.ht && !c.greenfield then Put(t3, id, NoHtGf, true) else t3;
    PutCounts(t3, id, NoHtGf, true);
    SameNums(t3, t4, NoHtGf);
    PutTwice(t.stas, id, t3.stas[id], t4.stas[id]);
    PutCounts(t4, id, Ht20, true);
    var t5 := if c.ht && !c.width40 then Put(t4, id, Ht20, true) else t4;
    SameNums(t4, t5, Ht20);
    PutTwice(t.stas, id, t4.stas[id], t5.stas[id]);
  }

  lemma SameNums(t: Tally, r: Tally, k: Flag)
    requires forall j :: j != k ==> Num(r.num, j) == Num(t.num, j)
    ensures k != NonErp ==> r.num.nonErp == t.num.nonErp
    ensures k != NoShortPreamble ==> r.num.noShortPreamble == t.num.noShortPreamble
  {
    assert Num(r.num, NonErp) == r.num.nonErp && Num(t.num, NonErp) == t.num.nonErp;
    assert Num(r.num, NoShortPreamble) == r.num.noShortPreamble && Num(t.num, NoShortPreamble) == t.num.noShortPreamble;
  }

  lemma LeftCounts(t: Tally, id: nat)
    requires Counted(t) && id in t.stas
    ensures Counted(LeftErp(t, id)) && Counted(Left(t, id))
    ensures Left(t, id).stas == t.stas[id := {}] && Left(t, id).num.nonErp == LeftErp(t, id).num.nonErp
    ensures Left(t, id).num.noShortPreamble == LeftErp(t, id).num.noShortPreamble
  {
    hide Put, Counted;
    var s := t.stas[id];
    var t1 := Put(t, id, NoShortPreamble, false);
    PutCounts(t, id, NoShortPreamble, false);
    var t2 := Put(t1, id, NonErp, false);
    PutCounts(t1, id, NonErp, false);
    PutTwice(t.stas, id, t1.stas[id], t2.stas[id]);
    var t3 := Put(t2, id, NoShortSlot, false);
    PutCounts(t2, id, NoShortSlot, false);
    SameNums(t2, t3, NoShortSlot);
    PutTwice(t.stas, id, t2.stas[id], t3.stas[id]);
    var t4 := Put(t3, id, NoHtGf, false);
    PutCounts(t3, id, NoHtGf, false);
    SameNums(t3, t4, NoHtGf);
    PutTwice(t.stas, id, t3.stas[id], t4.stas[id]);
    var t5 := Put(t4, id, NoHt, false);
    PutCounts(t4, id, NoHt, false);
    SameNums(t4, t5, NoHt);
    PutTwice(t.stas, id, t4.stas[id], t5.stas[id]);
    var t6 := Put(t5, id, Ht20, false);
    PutCounts(t5, id, Ht20, false);
    SameNums(t5, t6, Ht20);
    PutTwice(t.stas, id, t5.stas[id], t6.stas[id]);
    NoFlagLeft(s);
  }

  lemma NoFlagLeft(s: set<Flag>)
    ensures s - {NoShortPreamble} - {NonErp} - {NoShortSlot} - {NoHtGf} - {NoHt} - {Ht20} == {}
  {
    forall k: Flag ensures k !in s - {NoShortPreamble} - {NonErp} - {NoShortSlot} - {NoHtGf} - {NoHt} - {Ht20} {
      match k
      case NoShortPreamble | NonErp | NoShortSlot | NoHtGf | NoHt | Ht20 =>
    }
  }

  // ---------------------------------------------------------------- the beacon's ERP element

  /** The beacon can be kept in step: the BSS runs, ERP is on, and the beacon has the element. */
  predicate ErpLive(a: Ap) {
    a.started && a.erpEnable && a.erp.Some?
  }

  /** update_bcn_erpinfo_ie, reached through update_beacon. */
  function ErpUpdated(a: Ap, num: Counts): Option<Erp> {
    if !ErpLive(a) then a.erp
    else
      var bits := num.nonErp == 1;
      Some(a.erp.value.(nonErpPresent := bits, useProtection := bits, barker := num.noShortPreamble > 0))
  }

  /** The element after the non-ERP flag went from t to r: it is updated on the first such station and after the last. */
  function ErpAfter(a: Ap, t: Tally, r: Tally, on: bool): Option<Erp> {
    if r.num.nonErp != t.num.nonErp && r.num.nonErp == (if on then 1 else 0) then ErpUpdated(a, r.num) else a.erp
  }

  /** Both protection bits are set exactly while a non-ERP station is associated. */
  predicate BitsOk(a: Ap) {
    ErpLive(a) ==> a.erp.value.nonErpPresent == a.erp.value.useProtection == (a.tally.num.nonErp > 0)
  }

  /** One station entering or leaving the count: rewriting the element between none and one is enough. */
  lemma ErpAfterOk(a: Ap, r: Tally, on: bool)
    requires BitsOk(a) && a.tally.num.nonErp >= 0 && r.num.nonErp >= 0
    requires r.num.nonErp == a.tally.num.nonErp || r.num.nonErp == a.tally.num.nonErp + if on then 1 else -1
    ensures BitsOk(a.(tally := r, erp := ErpAfter(a, a.tally, r, on)))
  {}

  // ---------------------------------------------------------------- the HT operation mode

  /** The mode as a function of the counters. */
  function ModeFor(a: Ap): OpMode {
    var n := a.tally.num;
    OpMode(n.noHtGf > 0, n.noHt > 0 || a.olbcHt,
           if n.noHt > 0 || n.noHtGf > 0 then MIXED
           else if a.width40 && n.ht20 > 0 then HT20_ASSOCED
           else if a.olbcHt then MAY_BE_LEGACY else PURE,
           a.opMode.others)
  }

  /** rtw_ht_operation_update: the new mode word and the number of changes. */
  function HtUpdated(a: Ap): (Ap, nat) {
    if a.htOption then (a, 0)
    else
      var n, m := a.tally.num, a.opMode;
      var c1 := (!m.nonGf && n.noHtGf != 0) || (m.nonGf && n.noHtGf == 0);
      var m1 := if c1 then m.(nonGf := !m.nonGf) else m;
      var c2 := (!m1.nonHt && (n.noHt != 0 || a.olbcHt)) || (m1.nonHt && n.noHt == 0 && !a.olbcHt);
      var m2 := if c2 then m1.(nonHt := !m1.nonHt) else m1;
      var mode :=
        if n.noHt != 0 || m2.nonGf then MIXED
        else if a.width40 && n.ht20 != 0 then HT20_ASSOCED
        else if a.olbcHt then MAY_BE_LEGACY else PURE;
      (a.(opMode := m2.(mode := mode)), (if c1 then 1 else 0) + (if c2 then 1 else 0) + (if m2.mode != mode then 1 else 0))
  }

  predicate NonNegative(c: Counts) {
    c.noHtGf >= 0 && c.noHt >= 0 && c.ht20 >= 0 && c.nonErp >= 0
  }

  lemma CountedNonNegative(t: Tally)
    requires Counted(t)
    ensures NonNegative(t.num)
  {
    assert Num(t.num, NoHtGf) >= 0 && Num(t.num, NoHt) >= 0 && Num(t.num, Ht20) >= 0 && Num(t.num, NonErp) >= 0;
  }

  /** With ht_option off one update makes the mode the function of the counters, whatever it was before;
      it reports changes exactly if there are any, so a repeated update reports none. */
  lemma HtUpdateSettles(a: Ap)
    requires NonNegative(a.tally.num) && !a.htOption
    ensures var (b, changes) := HtUpdated(a);
            && b == a.(opMode := ModeFor(a)) && ModeFor(b) == ModeFor(a)
            && (changes == 0 <==> b == a)
            && HtUpdated(b) == (b, 0)
  {}

  predicate SomeHolds(t: Tally, k: Flag) {
    exists i :: i in t.stas && k in t.stas[i]
  }

  lemma SomeHoldsIff(t: Tally, k: Flag)
    requires Counted(t)
    ensures SomeHolds(t, k) <==> Num(t.num, k) > 0
  {
    var h := Holders(t.stas, k);
    if Num(t.num, k) > 0 {
      assert h != {};
      var i :| i in h;
    } else {
      assert h == {};
      assert forall i :: i in t.stas && k in t.stas[i] ==> i in h;
    }
  }

  /** The mode as the comment of the source describes it, in terms of the stations: mixed with a station that is
      not HT or not greenfield, else 20 MHz protection with a 20 MHz station in a 40 MHz BSS, else pure (or, next
      to an overlapping legacy BSS, possibly legacy). */
  lemma ModeByStations(a: Ap)
    requires Counted(a.tally)
    ensures var m, t := ModeFor(a), a.tally;
            && (m.mode == MIXED <==> SomeHolds(t, NoHt) || SomeHolds(t, NoHtGf))
            && (m.mode == HT20_ASSOCED <==> !SomeHolds(t, NoHt) && !SomeHolds(t, NoHtGf) && a.width40 && SomeHolds(t, Ht20))
            && (m.mode == PURE ==> !a.olbcHt) && (m.mode == MAY_BE_LEGACY ==> a.olbcHt)
            && (m.nonGf <==> SomeHolds(t, NoHtGf)) && (m.nonHt <==> SomeHolds(t, NoHt) || a.olbcHt)
  {
    SomeHoldsIff(a.tally, NoHt);
    SomeHoldsIff(a.tally, NoHtGf);
    SomeHoldsIff(a.tally, Ht20);
    hide Counted, SomeHolds;
  }

  // ---------------------------------------------------------------- joining and leaving

  /** bss_cap_update_on_sta_join */
  function Join(a: Ap, id: nat, c: Caps): Ap
    requires id in a.tally.stas
  {
    var erp := ErpAfter(a, a.tally, JoinedErp(a.tally, id, c), c.nonErp);
    HtUpdated(a.(tally := Joined(a.tally, id, c), erp := erp)).0
  }

  /** bss_cap_update_on_sta_leave */
  function Leave(a: Ap, id: nat): Ap
    requires id in a.tally.stas
  {
    var erp := ErpAfter(a, a.tally, LeftErp(a.tally, id), false);
    HtUpdated(a.(tally := Left(a.tally, id), erp := erp)).0
  }

  /** What every operation keeps. */
  ghost predicate Inv(a: Ap) {
    Counted(a.tally) && BitsOk(a) && (!a.htOption ==> a.opMode == ModeFor(a))
  }

  /** The fields no join or leave touches; the element stays if it was there. */
  predicate SameSetup(a: Ap, b: Ap) {
    && b.started == a.started && b.erpEnable == a.erpEnable && b.erp.Some? == a.erp.Some?
    && b.htOption == a.htOption && b.width40 == a.width40 && b.olbcHt == a.olbcHt
  }

  lemma NonErpStep(t: Tally, id: nat, k: Flag, x: bool, on: bool)
    requires Counted(t) && id in t.stas && k != NonErp
    ensures var n, r := t.num.nonErp, Put(Put(t, id, k, x), id, NonErp, on).num.nonErp;
            n >= 0 && r >= 0 && (r == n || r == n + if on then 1 else -1)
  {
    var t1 := Put(t, id, k, x);
    PutCounts(t, id, k, x);
    SameNums(t, t1, k);
    PutStep(t1, id, NonErp, on);
    hide Put, Counted;
    assert Num(t1.num, NonErp) == t1.num.nonErp;
    assert Num(Put(t1, id, NonErp, on).num, NonErp) == Put(t1, id, NonErp, on).num.nonErp;
  }

  lemma Settle(a: Ap)
    requires Counted(a.tally) && BitsOk(a)
    ensures Inv(HtUpdated(a).0) && HtUpdated(a).0 == a.(opMode := HtUpdated(a).0.opMode)
  {
    CountedNonNegative(a.tally);
    hide Counted;
    if !a.htOption {
      HtUpdateSettles(a);
    }
  }

  /** Joining, also again and with other capabilities, keeps counters, beacon and mode in step. */
  lemma JoinKeeps(a: Ap, id: nat, c: Caps)
    requires Inv(a) && id in a.tally.stas
    ensures var b := Join(a, id, c);
            Inv(b) && SameSetup(a, b) && b.tally.stas == a.tally.stas[id := FlagsAfter(a.tally.stas[id], c)]
  {
    hide Counted, Put, Joined, FlagsAfter, HtUpdated, ModeFor;
    JoinedCounts(a.tally, id, c);
    NonErpStep(a.tally, id, NoShortPreamble, !c.shortPreamble, c.nonErp);
    var r := JoinedErp(a.tally, id, c);
    hide JoinedErp;
    ErpAfterOk(a, r, c.nonErp);
    var b := a.(tally := Joined(a.tally, id, c), erp := ErpAfter(a, a.tally, r, c.nonErp));
    Settle(b);
  }

  lemma LeaveKeeps(a: Ap, id: nat)
    requires Inv(a) && id in a.tally.stas
    ensures var b := Leave(a, id); Inv(b) && SameSetup(a, b) && b.tally.stas == a.tally.stas[id := {}]
  {
    hide Counted, Put, Left, HtUpdated, ModeFor;
    LeftCounts(a.tally, id);
    NonErpStep(a.tally, id, NoShortPreamble, false, false);
    var r := LeftErp(a.tally, id);
    hide LeftErp;
    ErpAfterOk(a, r, false);
    var b := a.(tally := Left(a.tally, id), erp := ErpAfter(a, a.tally, r, false));
    Settle(b);
  }

  // ---------------------------------------------------------------- the Barker bit

  /** The first station comes or the last one goes. */
  predicate Crossed(n: int, m: int) {
    (n > 0) != (m > 0)
  }

  predicate BarkerRight(a: Ap)
    requires a.erp.Some?
  {
    a.erp.value.barker == (a.tally.num.noShortPreamble > 0)
  }

  /** The Barker bit is rewritten exactly when the protection bits change. */
  lemma BarkerOnJoin(a: Ap, id: nat, c: Caps)
    requires Inv(a) && ErpLive(a) && id in a.tally.stas
    ensures var b := Join(a, id, c);
            ErpLive(b) && if Crossed(a.tally.num.nonErp, b.tally.num.nonErp) then BarkerRight(b) else b.erp == a.erp
  {
    JoinKeeps(a, id, c);
    JoinedCounts(a.tally, id, c);
    NonErpStep(a.tally, id, NoShortPreamble, !c.shortPreamble, c.nonErp);
    hide Counted, Put, Joined, JoinedErp, FlagsAfter, ModeFor;
  }

  lemma BarkerOnLeave(a: Ap, id: nat)
    requires Inv(a) && ErpLive(a) && id in a.tally.stas
    ensures var b := Leave(a, id);
            ErpLive(b) && if Crossed(a.tally.num.nonErp, b.tally.num.nonErp) then BarkerRight(b) else b.erp == a.erp
  {
    LeaveKeeps(a, id);
    LeftCounts(a.tally, id);
    NonErpStep(a.tally, id, NoShortPreamble, false, false);
    hide Counted, Put, Left, LeftErp, ModeFor;
  }

  /** So a right Barker bit stays right over an association or a departure exactly if the protection bits changed with
      it, or the set of stations without short preambles did not become empty or non-empty. */
  lemma BarkerStaysRightIff(a: Ap, e: Event)
    requires Inv(a) && ErpLive(a) && BarkerRight(a)
    ensures var b := Step(a, e);
            && ErpLive(b)
            && (BarkerRight(b) <==>
                  || Crossed(a.tally.num.nonErp, b.tally.num.nonErp)
                  || !Crossed(a.tally.num.noShortPreamble, b.tally.num.noShortPreamble))
  {
    match e
    case Associate(id, caps) =>
      ArriveKeeps(a, id);
      BarkerOnJoin(Arrive(a, id), id, caps);
      hide Join, Inv;
    case Depart(id) =>
      if id in a.tally.stas {
        BarkerOnLeave(a, id);
        hide Leave, Inv;
      }
  }

  /** It does go stale: here after the first station without short preambles joined. */
  lemma BarkerGoesStale(id: nat, erp: Erp)
    requires erp == Erp(false, false, false, erp.reserved)
    ensures var b := Step(Start(true, true, Some(erp), true), Associate(id, Caps(false, false, true, true, true, true)));
            ErpLive(b) && b.tally.num.noShortPreamble == 1 && !b.erp.value.barker
  {}

  // ---------------------------------------------------------------- whole runs

  /** start_ap_mode, and the beacon the BSS is then started with. */
  function Start(started: bool, erpEnable: bool, erp: Option<Erp>, width40: bool): Ap {
    Ap(Tally(map[], Counts(0, 0, 0, 0, 0, 0)), started, erpEnable, erp, false, width40, false, OpMode(false, false, PURE, 0))
  }

  /** A fresh sta_info holds no flag. */
  function Arrive(a: Ap, id: nat): (b: Ap)
    ensures id in b.tally.stas
  {
    if id in a.tally.stas then a else a.(tally := a.tally.(stas := a.tally.stas[id := {}]))
  }

  function Forget(a: Ap, id: nat): Ap {
    a.(tally := a.tally.(stas := a.tally.stas - {id}))
  }

  datatype Event = Associate(id: nat, caps: Caps) | Depart(id: nat)

  function Step(a: Ap, e: Event): Ap {
    match e
    case Associate(id, caps) => Join(Arrive(a, id), id, caps)
    case Depart(id) => if id in a.tally.stas then Forget(Leave(a, id), id) else a
  }

  lemma SameHolders(t: Tally, r: Tally)
    requires Counted(t) && r.num == t.num && forall k: Flag :: Holders(r.stas, k) == Holders(t.stas, k)
    ensures Counted(r)
  {}

  lemma ArriveKeeps(a: Ap, id: nat)
    requires Inv(a)
    ensures Inv(Arrive(a, id)) && SameSetup(a, Arrive(a, id))
  {
    forall k: Flag ensures Holders(Arrive(a, id).tally.stas, k) == Holders(a.tally.stas, k) {}
    SameHolders(a.tally, Arrive(a, id).tally);
    hide Counted;
  }

  lemma ForgetKeeps(a: Ap, id: nat)
    requires Inv(a) && id in a.tally.stas && a.tally.stas[id] == {}
    ensures Inv(Forget(a, id)) && SameSetup(a, Forget(a, id))
  {
    forall k: Flag ensures Holders(Forget(a, id).tally.stas, k) == Holders(a.tally.stas, k) {}
    SameHolders(a.tally, Forget(a, id).tally);
    hide Counted;
  }

  lemma StepKeeps(a: Ap, e: Event)
    requires Inv(a)
    ensures Inv(Step(a, e)) && SameSetup(a, Step(a, e))
  {
    hide Inv, Join, Leave, Forget, Arrive;
    match e
    case Associate(id, caps) =>
      ArriveKeeps(a, id);
      JoinKeeps(Arrive(a, id), id, caps);
    case Depart(id) =>
      if id in a.tally.stas {
        LeaveKeeps(a, id);
        ForgetKeeps(Leave(a, id), id);
      }
  }

  function Run(a: Ap, es: seq<Event>): Ap
    decreases |es|
  {
    if es == [] then a else Run(Step(a, es[0]), es[1..])
  }

  lemma {:induction false} RunKeeps(a: Ap, es: seq<Event>)
    requires Inv(a)
    ensures Inv(Run(a, es)) && SameSetup(a, Run(a, es))
    decreases |es|
  {
    hide Inv, Step;
    if es != [] {
      StepKeeps(a, es[0]);
      RunKeeps(Step(a, es[0]), es[1..]);
    }
  }

  /** From the start of a BSS whose beacon has clear protection bits, through any sequence of joins, repeated
      joins and leaves: the counters count, the protection bits say whether a non-ERP station is there, and
      the HT mode is the function of the counters, so that one more update reports no change. */
  lemma RunsStayInStep(erp: Erp, width40: bool, es: seq<Event>)
    requires !erp.nonErpPresent && !erp.useProtection
    ensures var b := Run(Start(true, true, Some(erp), width40), es);
            && (forall k: Flag :: Num(b.tally.num, k) == |Holders(b.tally.stas, k)|)
            && ErpLive(b) && b.erp.value.nonErpPresent == b.erp.value.useProtection
            && (b.erp.value.nonErpPresent <==> exists i :: i in Holders(b.tally.stas, NonErp))
            && b.opMode == ModeFor(b) && HtUpdated(b) == (b, 0)
  {
    var a := Start(true, true, Some(erp), width40);
    assert Inv(a) by {
      assert forall k: Flag :: Holders(a.tally.stas, k) == {};
    }
    RunKeeps(a, es);
    var b := Run(a, es);
    CountedNonNegative(b.tally);
    HtUpdateSettles(b);
    hide Run, HtUpdated, ModeFor;
    var h := Holders(b.tally.stas, NonErp);
    assert b.tally.num.nonErp == Num(b.tally.num, NonErp) == |h|;
    assert |h| > 0 <==> exists i :: i in h by {
      assert h != {} ==> exists i :: i in h;
    }
  }

  // ---------------------------------------------------------------- single events, written out

  /** A station that associates holds the four flags of its capabilities, and the greenfield and width flags also if
      it held them before; all other stations keep their flags. */
  lemma FlagsOfStations(a: Ap, id: nat, c: Caps)
    requires Inv(a)
    ensures var old', new' := a.tally.stas, Step(a, Associate(id, c)).tally.stas;
            && id in new' && new'.Keys == old'.Keys + {id}
            && (forall i :: i in old' && i != id ==> new'[i] == old'[i])
            && (NoShortPreamble in new'[id] <==> !c.shortPreamble) && (NonErp in new'[id] <==> c.nonErp)
            && (NoShortSlot in new'[id] <==> !c.shortSlot) && (NoHt in new'[id] <==> !c.ht)
            && (NoHtGf in new'[id] <==> (id in old' && NoHtGf in old'[id]) || (c.ht && !c.greenfield))
            && (Ht20 in new'[id] <==> (id in old' && Ht20 in old'[id]) || (c.ht && !c.width40))
  {
    AssociateStores(a, id, c);
    FlagsAfterAre(if id in a.tally.stas then a.tally.stas[id] else {}, c);
    hide *;
  }

  lemma AssociateStores(a: Ap, id: nat, c: Caps)
    requires Inv(a)
    ensures var old', new' := a.tally.stas, Step(a, Associate(id, c)).tally.stas;
            && id in new' && new'.Keys == old'.Keys + {id}
            && (forall i :: i in old' && i != id ==> new'[i] == old'[i])
            && new'[id] == FlagsAfter(if id in old' then old'[id] else {}, c)
  {
    var u := Arrive(a, id);
    ArriveKeeps(a, id);
    JoinKeeps(u, id, c);
    hide Inv, Join, FlagsAfter;
  }

  /** A station that departs is forgotten, and no other. */
  lemma DepartedIsGone(a: Ap, id: nat)
    requires Inv(a)
    ensures Step(a, Depart(id)).tally.stas == a.tally.stas - {id}
  {
    if id in a.tally.stas {
      LeaveKeeps(a, id);
      hide Inv, Leave;
    }
  }

  /** Each counter is the number of stations with its flag. */
  lemma CountsAre(t: Tally)
    requires Counted(t)
    ensures t.num.noShortPreamble == |set i | i in t.stas && NoShortPreamble in t.stas[i]|
    ensures t.num.nonErp == |set i | i in t.stas && NonErp in t.stas[i]|
    ensures t.num.noShortSlot == |set i | i in t.stas && NoShortSlot in t.stas[i]|
    ensures t.num.noHtGf == |set i | i in t.stas && NoHtGf in t.stas[i]|
    ensures t.num.noHt == |set i | i in t.stas && NoHt in t.stas[i]|
    ensures t.num.ht20 == |set i | i in t.stas && Ht20 in t.stas[i]|
  {
    assert forall k :: Num(t.num, k) == |Holders(t.stas, k)|;
    assert Num(t.num, NoShortPreamble) == t.num.noShortPreamble && Num(t.num, NonErp) == t.num.nonErp;
    assert Num(t.num, NoShortSlot) == t.num.noShortSlot && Num(t.num, NoHtGf) == t.num.noHtGf;
    assert Num(t.num, NoHt) == t.num.noHt && Num(t.num, Ht20) == t.num.ht20;
    assert (set i | i in t.stas && NoShortPreamble in t.stas[i]) == Holders(t.stas, NoShortPreamble);
    assert (set i | i in t.stas && NonErp in t.stas[i]) == Holders(t.stas, NonErp);
    assert (set i | i in t.stas && NoShortSlot in t.stas[i]) == Holders(t.stas, NoShortSlot);
    assert (set i | i in t.stas && NoHtGf in t.stas[i]) == Holders(t.stas, NoHtGf);
    assert (set i | i in t.stas && NoHt in t.stas[i]) == Holders(t.stas, NoHt);
    assert (set i | i in t.stas && Ht20 in t.stas[i]) == Holders(t.stas, Ht20);
  }

  /** The mode word: bit 2 for a station that is not greenfield, bit 4 for one that is not HT or an overlapping legacy
      BSS, and the mode 3, 2, 1 or 0 by the first condition that holds. */
  lemma ModeBits(a: Ap)
    requires Inv(a)
    ensures var m, n := HtUpdated(a).0.opMode, a.tally.num;
            if a.htOption then HtUpdated(a) == (a, 0)
            else
              && (m.nonGf <==> n.noHtGf > 0) && (m.nonHt <==> n.noHt > 0 || a.olbcHt) && m.others == a.opMode.others
              && (m.mode == 3 <==> n.noHt > 0 || n.noHtGf > 0)
              && (m.mode == 2 <==> n.noHt == 0 && n.noHtGf == 0 && a.width40 && n.ht20 > 0)
              && (m.mode == 1 <==> n.noHt == 0 && n.noHtGf == 0 && !(a.width40 && n.ht20 > 0) && a.olbcHt)
              && (m.mode == 0 <==> n.noHt == 0 && n.noHtGf == 0 && !(a.width40 && n.ht20 > 0) && !a.olbcHt)
  {
    CountedNonNegative(a.tally);
    hide Counted;
  }

  /** The Barker bit is rewritten only when the first non-ERP station comes or the last one goes, and is then right. */
  lemma BarkerWritten(a: Ap, e: Event)
    requires Inv(a) && a.started && a.erpEnable && a.erp.Some?
    ensures var b := Step(a, e);
            && b.erp.Some?
            && if (a.tally.num.nonErp > 0) != (b.tally.num.nonErp > 0)
               then b.erp.value.barker == (b.tally.num.noShortPreamble > 0)
               else b.erp == a.erp
  {
    match e
    case Associate(id, caps) =>
      ArriveKeeps(a, id);
      BarkerOnJoin(Arrive(a, id), id, caps);
      hide Join, Inv;
    case Depart(id) =>
      if id in a.tally.stas {
        BarkerOnLeave(a, id);
        hide Leave, Inv;
      }
  }

  /** With the option set no event touches the mode word; without a running BSS, ERP or the element, none touches the
      element, and its reserved bits survive every event. */
  lemma Untouched(a: Ap, e: Event)
    requires Inv(a)
    ensures a.htOption ==> Step(a, e).opMode == a.opMode
    ensures !a.started || !a.erpEnable ==> Step(a, e).erp == a.erp
    ensures a.erp.Some? <==> Step(a, e).erp.Some?
    ensures a.erp.Some? ==> Step(a, e).erp.value.reserved == a.erp.value.reserved
  {
    hide Inv, Put, ModeFor, JoinedErp, JoinedRest, LeftErp;
  }

  // ---------------------------------------------------------------- the code

  lemma PutNums(t: Tally, id: nat, k: Flag, on: bool)
    requires id in t.stas
    ensures Put(t, id, k, on).num == if (k in t.stas[id]) == on then t.num else Add(t.num, k, if on then 1 else -1)
    ensures k != NonErp ==> Put(t, id, k, on).num.nonErp == t.num.nonErp
    ensures k == NonErp ==> (Put(t, id, k, on).num.nonErp != t.num.nonErp <==> (k in t.stas[id]) != on)
  {}

  class ApPriv {
    var stas: map<nat, set<Flag>>
    var num: Counts
    var started: bool
    var erpEnable: bool
    var erp: Option<Erp>
    var htOption: bool
    var width40: bool
    var olbcHt: bool
    var opMode: OpMode

    ghost function View(): Ap
      reads this
    {
      Ap(Tally(stas, num), started, erpEnable, erp, htOption, width40, olbcHt, opMode)
    }

    /** start_ap_mode, followed by the start of the BSS with this beacon. */
    constructor (erpEnable: bool, erp: Option<Erp>, width40: bool)
      ensures View() == Start(true, erpEnable, erp, width40)
    {
      stas, num := map[], Counts(0, 0, 0, 0, 0, 0);
      started, this.erpEnable, this.erp := true, erpEnable, erp;
      htOption, this.width40, olbcHt, opMode := false, width40, false, OpMode(false, false, PURE, 0);
    }

    method PutFlag(id: nat, k: Flag, on: bool) returns (changed: bool)
      requires id in stas
      modifies this`stas, this`num
      ensures View() == old(View()).(tally := Put(old(View().tally), id, k, on)) && id in stas
      ensures changed == ((k in old(stas[id])) != on)
    {
      changed := (k in stas[id]) != on;
      if changed {
        stas := stas[id := WithFlag(stas[id], k, on)];
        num := Add(num, k, if on then 1 else -1);
      }
    }

    /** update_bcn_erpinfo_ie behind the check of update_beacon */
    method UpdateBcnErpInfo()
      modifies this`erp
      ensures View() == old(View()).(erp := ErpUpdated(old(View()), num))
    {
      if !started || !erpEnable || erp.None? {
        return;
      }
      var e := erp.value;
      if num.nonErp == 1 {
        e := e.(nonErpPresent := true, useProtection := true);
      } else {
        e := e.(nonErpPresent := false, useProtection := false);
      }
      erp := Some(e.(barker := num.noShortPreamble > 0));
    }

    method HtOperationUpdate() returns (changes: nat)
      modifies this`opMode
      ensures (View(), changes) == HtUpdated(old(View()))
    {
      changes := 0;
      if htOption {
        return;
      }
      if !opMode.nonGf && num.noHtGf != 0 {
        opMode, changes := opMode.(nonGf := true), changes + 1;
      } else if opMode.nonGf && num.noHtGf == 0 {
        opMode, changes := opMode.(nonGf := false), changes + 1;
      }
      if !opMode.nonHt && (num.noHt != 0 || olbcHt) {
        opMode, changes := opMode.(nonHt := true), changes + 1;
      } else if opMode.nonHt && num.noHt == 0 && !olbcHt {
        opMode, changes := opMode.(nonHt := false), changes + 1;
      }
      var mode :=
        if num.noHt != 0 || opMode.nonGf then MIXED
        else if width40 && num.ht20 != 0 then HT20_ASSOCED
        else if olbcHt then MAY_BE_LEGACY else PURE;
      if opMode.mode != mode {
        opMode, changes := opMode.(mode := mode), changes + 1;
      }
    }

    /** The flags up to the ERP update, shared by join and leave. */
    method PreambleAndErp(id: nat, noShortPreamble: bool, nonErp: bool)
      requires id in stas
      modifies this`stas, this`num, this`erp
      ensures var t := old(View().tally);
              var r := Put(Put(t, id, NoShortPreamble, noShortPreamble), id, NonErp, nonErp);
              View() == old(View()).(tally := r, erp := ErpAfter(old(View()), t, r, nonErp)) && id in stas
    {
      ghost var t := View().tally;
      PutNums(t, id, NoShortPreamble, noShortPreamble);
      PutNums(Put(t, id, NoShortPreamble, noShortPreamble), id, NonErp, nonErp);
      hide Put, Add, WithFlag;
      var changed := PutFlag(id, NoShortPreamble, noShortPreamble);
      changed := PutFlag(id, NonErp, nonErp);
      if changed && num.nonErp == (if nonErp then 1 else 0) {
        UpdateBcnErpInfo();
      }
    }

    /** The slot and HT flags of a joining station. */
    method RestFlags(id: nat, c: Caps)
      requires id in stas
      modifies this`stas, this`num
      ensures View() == old(View()).(tally := JoinedRest(old(View().tally), id, c)) && id in stas
    {
      hide Put, WithFlag, Add;
      var changed := PutFlag(id, NoShortSlot, !c.shortSlot);
      changed := PutFlag(id, NoHt, !c.ht);
      if c.ht {
        if !c.greenfield {
          changed := PutFlag(id, NoHtGf, true);
        }
        if !c.width40 {
          changed := PutFlag(id, Ht20, true);
        }
      }
    }

    /** bss_cap_update_on_sta_join */
    method OnStaJoin(id: nat, c: Caps)
      requires id in stas
      modifies this`stas, this`num, this`erp, this`opMode
      ensures View() == Join(old(View()), id, c)
    {
      hide Put, JoinedRest, HtUpdated, ErpAfter;
      PreambleAndErp(id, !c.shortPreamble, c.nonErp);
      RestFlags(id, c);
      var changes := HtOperationUpdate();
    }

    /** bss_cap_update_on_sta_leave */
    method OnStaLeave(id: nat)
      requires id in stas
      modifies this`stas, this`num, this`erp, this`opMode
      ensures View() == Leave(old(View()), id)
    {
      hide Put, WithFlag, Add, HtUpdated, ErpAfter;
      PreambleAndErp(id, false, false);
      var changed := PutFlag(id, NoShortSlot, false);
      changed := PutFlag(id, NoHtGf, false);
      changed := PutFlag(id, NoHt, false);
      changed := PutFlag(id, Ht20, false);
      var changes := HtOperationUpdate();
    }
  }
}
