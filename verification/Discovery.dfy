/**
 Finding the SPI core that controls a chip (`match_devinfo` in `modules/isla216p.cc` and
 `modules/ad9510.cc`, `read_sdb` in `util/sdb.cc`).
 */
module Discovery {
  import opened Words

  datatype Device = Device(startAddr: nat, vendorId: nat, deviceId: nat, abiMajor: nat, abiMinor: nat)

  /** A record of the self-describing bus: a device, or something else that is skipped. */
  datatype Record = DeviceRecord(device: Device) | OtherRecord

  const LNLS_VENDORID: nat := 0x1000_0000_0000_1215
  const CERN_VENDORID: nat := 0xCE42

  /** `RegisterDecoderBase::match_devinfo` */
  predicate Matches(d: Device, vendorId: nat, deviceId: nat, abiMajor: nat) {
    d.vendorId == vendorId && d.deviceId == deviceId && d.abiMajor == abiMajor
  }

  predicate IsSpi(d: Device) { Matches(d, CERN_VENDORID, 0xE503_947E, 1) }

  predicate IsFmc250m(d: Device) { Matches(d, LNLS_VENDORID, 0x68E3_B1AF, 1) }

  predicate IsFmcActiveClk(d: Device) { Matches(d, LNLS_VENDORID, 0x88C6_7D9C, 1) }

  // ----- the matchers

  /** A matcher's answer: how much of its pattern it has seen now, and whether that completed it. */
  datatype Move = Move(phase: nat, found: bool)

  /** What the ISLA216P matcher does with a device: its next phase, and whether it matches. */
  function IslaStep(phase: nat, d: Device): Move {
    if 3 <= phase && IsSpi(d) then Move(0, true)
    else if 1 <= phase && IsSpi(d) then Move(phase + 1, false)
    else if IsFmc250m(d) then Move(if phase == 0 then 1 else phase, false)
    else Move(phase, false)
  }

  function Ad9510Step(phase: nat, d: Device): Move {
    if IsFmcActiveClk(d) then Move(1, false)
    else if 1 <= phase && IsSpi(d) then Move(0, true)
    else Move(phase, false)
  }

  class IslaController {
    var f250: Option<Device>
    var spiFirst: Option<Device>
    var spiSecond: Option<Device>

    predicate Valid()
      reads this
    {
      (spiSecond.Some? ==> spiFirst.Some?) && (spiFirst.Some? ==> f250.Some?)
    }

    function SeenSoFar(): nat
      reads this
    {
      if f250.None? then 0 else if spiFirst.None? then 1 else if spiSecond.None? then 2 else 3
    }

    constructor ()
      ensures Valid() && SeenSoFar() == 0
    {
      f250, spiFirst, spiSecond := None, None, None;
    }

    method MatchDevinfo(d: Device) returns (found: bool)
      requires Valid()
      modifies this
      ensures Valid() && Move(SeenSoFar(), found) == IslaStep(old(SeenSoFar()), d)
    {
      if f250.Some? && spiFirst.Some? && spiSecond.Some? && IsSpi(d) {
        f250, spiFirst, spiSecond := None, None, None;
        return true;
      }
      if f250.Some? && spiFirst.Some? && IsSpi(d) {
        spiSecond := Some(d);
        return false;
      }
      if f250.Some? && IsSpi(d) {
        spiFirst := Some(d);
        return false;
      }
      if IsFmc250m(d) {
        f250 := Some(d);
        return false;
      }
      return false;
    }
  }

  class Ad9510Controller {
    var fac: Option<Device>

    function SeenSoFar(): nat
      reads this
    {
      if fac.None? then 0 else 1
    }

    constructor ()
      ensures SeenSoFar() == 0
    {
      fac := None;
    }

    method MatchDevinfo(d: Device) returns (found: bool)
      modifies this
      ensures Move(SeenSoFar(), found) == Ad9510Step(old(SeenSoFar()), d)
    {
      if IsFmcActiveClk(d) {
        fac := Some(d);
        return false;
      }
      if fac.Some? && IsSpi(d) {
        fac := None;
        return true;
      }
      return false;
    }
  }

  /** The chips looked for, each with its own matcher. */
  datatype Chip = Isla216p | Ad9510

  function Step(chip: Chip, phase: nat, d: Device): Move {
    match chip
    case Isla216p => IslaStep(phase, d)
    case Ad9510 => Ad9510Step(phase, d)
  }

  /** The controller object behind a device match function. */
  datatype Matcher = IslaMatcher(isla: IslaController) | Ad9510Matcher(ad: Ad9510Controller) {
    function Target(): Chip { if IslaMatcher? then Isla216p else Ad9510 }

    function Controller(): object { if IslaMatcher? then isla else ad }

    predicate Valid()
      reads Controller()
    {
      IslaMatcher? ==> isla.Valid()
    }

    function SeenSoFar(): nat
      reads Controller()
    {
      if IslaMatcher? then isla.SeenSoFar() else ad.SeenSoFar()
    }

    method Call(d: Device) returns (found: bool)
      requires Valid()
      modifies Controller()
      ensures Valid() && Move(SeenSoFar(), found) == Step(Target(), old(SeenSoFar()), d)
    {
      if IslaMatcher? {
        found := isla.MatchDevinfo(d);
      } else {
        found := ad.MatchDevinfo(d);
      }
    }
  }

  // ----- the loop over the bus

  /** A matcher on records: only devices reach it. */
  function Feed(chip: Chip, phase: nat, r: Record): Move {
    match r
    case OtherRecord => Move(phase, false)
    case DeviceRecord(d) => Step(chip, phase, d)
  }

  /** A successful search: where it stopped, and what its matcher remembers. */
  datatype Hit = Hit(index: nat, phase: nat)

  /** The `pos`-th match from record `i` on. */
  function Find(chip: Chip, records: seq<Record>, i: nat, phase: nat, pos: nat): Option<Hit>
    requires i <= |records|
    decreases |records| - i
  {
    if i == |records| then None
    else
      var move := Feed(chip, phase, records[i]);
      if move.found && pos == 0 then Some(Hit(i, move.phase))
      else Find(chip, records, i + 1, move.phase, if move.found then pos - 1 else pos)
  }

  /** `read_sdb` with a device match function: the device found, and what the matcher remembers of the bus. */
  method ReadSdb(records: seq<Record>, matcher: Matcher, pos: nat) returns (device: Option<Device>)
    requires matcher.Valid()
    modifies matcher.Controller()
    ensures matcher.Valid()
    ensures match Find(matcher.Target(), records, 0, old(matcher.SeenSoFar()), pos)
            case None => device.None?
            case Some(hit) =>
              && hit.index < |records| && matcher.SeenSoFar() == hit.phase
              && records[hit.index].DeviceRecord? && device == Some(records[hit.index].device)
  {
    ghost var phase := matcher.SeenSoFar();
    var left := pos;
    for i := 0 to |records|
      invariant matcher.Valid()
      invariant Find(matcher.Target(), records, 0, phase, pos) ==
                Find(matcher.Target(), records, i, matcher.SeenSoFar(), left)
    {
      if records[i].DeviceRecord? {
        var found := matcher.Call(records[i].device);
        if found {
          if left == 0 {
            return Some(records[i].device);
          }
          left := left - 1;
        }
      }
    }
    return None;
  }

  // ----- what the matchers look for

  predicate SpiAt(records: seq<Record>, i: nat)
    requires i < |records|
  {
    && records[i].DeviceRecord?
    && var d := records[i].device; d.vendorId == 0xCE42 && d.deviceId == 0xE503_947E && d.abiMajor == 1
  }

  /** Record `i` is a board core: an FMC250M one for the first kind of chip, an FMC_ACTIVE_CLK one for the other. */
  predicate CardAt(records: seq<Record>, i: nat, chip: Chip)
    requires i < |records|
  {
    && records[i].DeviceRecord?
    && var d := records[i].device;
       && d.vendorId == 0x1000_0000_0000_1215 && d.abiMajor == 1
       && d.deviceId == if chip.Isla216p? then 0x68E3_B1AF else 0x88C6_7D9C
  }

  /** SPI cores among records `lo` to `hi`. */
  function SpiCount(records: seq<Record>, lo: nat, hi: nat): nat
    requires lo <= hi <= |records|
    decreases hi
  {
    if lo == hi then 0 else SpiCount(records, lo, hi - 1) + if SpiAt(records, hi - 1) then 1 else 0
  }

  /** Record `f` is the first board core from `start` on. */
  ghost predicate FirstCard(records: seq<Record>, start: nat, f: nat, chip: Chip)
    requires f < |records|
  {
    start <= f && CardAt(records, f, chip) && forall g :: start <= g < f ==> !CardAt(records, g, chip)
  }

  /** Record `i` is the `nth` SPI core after the first board core from `start` on. */
  ghost predicate NthSpi(records: seq<Record>, start: nat, i: nat, nth: nat, chip: Chip)
    requires i < |records|
  {
    && SpiAt(records, i)
    && exists f :: start <= f < i && FirstCard(records, start, f, chip) && SpiCount(records, f + 1, i) == nth - 1
  }

  /** The SPI core that a chip search wants: the third one for an ISLA216P, the first one for an AD9510. */
  function Nth(chip: Chip): nat { if chip.Isla216p? then 3 else 1 }

  /** Record `i` is the `pos`-th such core, the search starting over after each of them. */
  ghost predicate KthTarget(records: seq<Record>, start: nat, pos: nat, i: nat, chip: Chip)
    requires i < |records|
    decreases pos
  {
    if pos == 0 then NthSpi(records, start, i, Nth(chip), chip)
    else
      exists j ::
        start <= j < i && NthSpi(records, start, j, Nth(chip), chip) && KthTarget(records, j + 1, pos - 1, i, chip)
  }

  /** The phase a search that began at `start` has before record `i`, if it found nothing yet. */
  ghost predicate PhaseIs(records: seq<Record>, start: nat, i: nat, phase: nat, chip: Chip)
    requires start <= i <= |records|
  {
    if phase == 0 then forall g :: start <= g < i ==> !CardAt(records, g, chip)
    else
      && phase <= Nth(chip)
      && exists f :: start <= f < i && FirstCard(records, start, f, chip) && SpiCount(records, f + 1, i) == phase - 1
  }

  /** Neither of the two board cores is an SPI core. */
  lemma CardsAreNotSpi(records: seq<Record>, i: nat, chip: Chip)
    requires i < |records| && CardAt(records, i, chip)
    ensures !SpiAt(records, i)
  {
  }

  lemma FirstCardUnique(records: seq<Record>, start: nat, f: nat, f': nat, chip: Chip)
    requires f < |records| && f' < |records| && FirstCard(records, start, f, chip) &&
              FirstCard(records, start, f', chip)
    ensures f == f'
  {
  }

  lemma {:induction false} SpiCountGrows(records: seq<Record>, lo: nat, i: nat, j: nat)
    requires lo <= i <= j <= |records|
    ensures SpiCount(records, lo, i) <= SpiCount(records, lo, j)
    ensures i < j && SpiAt(records, i) ==> SpiCount(records, lo, i) < SpiCount(records, lo, j)
    decreases j
  {
    if i < j {
      SpiCountGrows(records, lo, i, j - 1);
    }
  }

  /** A search has one target: no two records are the same number of SPI cores away. */
  lemma TargetUnique(records: seq<Record>, start: nat, i: nat, j: nat, nth: nat, chip: Chip)
    requires i < |records| && j < |records| && NthSpi(records, start, i, nth, chip) &&
              NthSpi(records, start, j, nth, chip)
    ensures i == j
  {
    var f :| start <= f < i && FirstCard(records, start, f, chip) && SpiCount(records, f + 1, i) == nth - 1;
    var f' :| start <= f' < j && FirstCard(records, start, f', chip) && SpiCount(records, f' + 1, j) == nth - 1;
    FirstCardUnique(records, start, f, f', chip);
    if i < j {
      SpiCountGrows(records, f + 1, i, j);
    } else if j < i {
      SpiCountGrows(records, f + 1, j, i);
    }
  }

  /** One record moves the phase as the pattern says, and matches exactly at the target. */
  lemma PhaseStep(records: seq<Record>, start: nat, i: nat, phase: nat, chip: Chip)
    requires start <= i < |records| && PhaseIs(records, start, i, phase, chip)
    ensures var move := Feed(chip, phase, records[i]);
            && (move.found <==> NthSpi(records, start, i, Nth(chip), chip))
            && (if move.found then move.phase == 0 else PhaseIs(records, start, i + 1, move.phase, chip))
  {
    if phase == 0 {
      if CardAt(records, i, chip) {
        CardsAreNotSpi(records, i, chip);
        assert FirstCard(records, start, i, chip) && SpiCount(records, i + 1, i + 1) == 0;
      }
    } else {
      var f :| start <= f < i && FirstCard(records, start, f, chip) && SpiCount(records, f + 1, i) == phase - 1;
      if SpiAt(records, i) {
        assert !CardAt(records, i, chip);
        if NthSpi(records, start, i, Nth(chip), chip) {
          var f' :| start <= f' < i && FirstCard(records, start, f', chip) &&
              SpiCount(records, f' + 1, i) == Nth(chip) - 1;
          FirstCardUnique(records, start, f, f', chip);
        }
      }
      assert SpiCount(records, f + 1, i + 1) == phase - 1 + if SpiAt(records, i) then 1 else 0;
    }
  }

  /** A search that is still in some phase has passed no target. */
  lemma NoTargetBefore(records: seq<Record>, start: nat, i: nat, phase: nat, j: nat, chip: Chip)
    requires start <= i <= |records| && j < i && PhaseIs(records, start, i, phase, chip)
    ensures !NthSpi(records, start, j, Nth(chip), chip)
  {
    if NthSpi(records, start, j, Nth(chip), chip) {
      var f' :| start <= f' < j && FirstCard(records, start, f', chip) && SpiCount(records, f' + 1, j) == Nth(chip) - 1;
      assert CardAt(records, f', chip);
      var f :| start <= f < i && FirstCard(records, start, f, chip) && SpiCount(records, f + 1, i) == phase - 1;
      FirstCardUnique(records, start, f, f', chip);
      SpiCountGrows(records, f + 1, j, i);
    }
  }

  /** The search from the middle of a pattern stops at the wanted core, its matcher fresh, or there is none. */
  lemma {:induction false} SearchFrom(chip: Chip, records: seq<Record>, start: nat, i: nat, phase: nat, pos: nat)
    requires start <= i <= |records| && PhaseIs(records, start, i, phase, chip)
    ensures match Find(chip, records, i, phase, pos)
            case None => forall j :: 0 <= j < |records| ==> !KthTarget(records, start, pos, j, chip)
            case Some(hit) => hit.index < |records| && hit.phase == 0 && KthTarget(records, start, pos, hit.index, chip)
    decreases |records| - i
  {
    if i == |records| {
      forall j | 0 <= j < |records| ensures !NthSpi(records, start, j, Nth(chip), chip) {
        NoTargetBefore(records, start, i, phase, j, chip);
      }
    } else {
      PhaseStep(records, start, i, phase, chip);
      var move := Feed(chip, phase, records[i]);
      if !move.found {
        SearchFrom(chip, records, start, i + 1, move.phase, pos);
      } else if pos > 0 {
        SearchFrom(chip, records, i + 1, i + 1, 0, pos - 1);
        forall j | 0 <= j < |records| && KthTarget(records, start, pos, j, chip)
          ensures KthTarget(records, i + 1, pos - 1, j, chip)
        {
          var j' :| start <= j' < j && NthSpi(records, start, j', Nth(chip), chip) &&
              KthTarget(records, j' + 1, pos - 1, j, chip);
          TargetUnique(records, start, i, j', Nth(chip), chip);
        }
      }
    }
  }

  lemma {:induction false} KthTargetUnique(records: seq<Record>, start: nat, pos: nat, i: nat, j: nat, chip: Chip)
    requires i < |records| && j < |records| && KthTarget(records, start, pos, i, chip) &&
              KthTarget(records, start, pos, j, chip)
    ensures i == j
    decreases pos
  {
    if pos == 0 {
      TargetUnique(records, start, i, j, Nth(chip), chip);
    } else {
      var a :| start <= a < i && NthSpi(records, start, a, Nth(chip), chip) &&
          KthTarget(records, a + 1, pos - 1, i, chip);
      var b :| start <= b < j && NthSpi(records, start, b, Nth(chip), chip) &&
          KthTarget(records, b + 1, pos - 1, j, chip);
      TargetUnique(records, start, a, b, Nth(chip), chip);
      KthTargetUnique(records, a + 1, pos - 1, i, j, chip);
    }
  }

  /**
   With a fresh matcher, the search finds record `i` exactly when `i` is the core asked for, and leaves
   the matcher fresh.
   */
  lemma FindIsKthTarget(chip: Chip, records: seq<Record>, pos: nat, i: nat)
    requires i < |records|
    ensures Find(chip, records, 0, 0, pos) == Some(Hit(i, 0)) <==> KthTarget(records, 0, pos, i, chip)
    ensures Find(chip, records, 0, 0, pos).Some? ==> Find(chip, records, 0, 0, pos).value.phase == 0
    ensures Find(chip, records, 0, 0, pos).None? <==>
              forall j :: 0 <= j < |records| ==> !KthTarget(records, 0, pos, j, chip)
  {
    SearchFrom(chip, records, 0, 0, 0, pos);
    var search := Find(chip, records, 0, 0, pos);
    if search.Some? {
      assert 0 <= search.value.index < |records| && KthTarget(records, 0, pos, search.value.index, chip);
      if KthTarget(records, 0, pos, i, chip) {
        KthTargetUnique(records, 0, pos, i, search.value.index, chip);
      }
    }
  }
}
