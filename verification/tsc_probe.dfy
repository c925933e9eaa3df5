/** Deciding whether the time-stamp counter may be used (src/tsc.rs).

    Both constructors of `Tsc` consult the outside world: one executes
    `CPUID` leaf 1, the other reads a file under `/sys`. Here the register
    value and the outcome of the file read are parameters. */
module TscProbe {
  import opened Results
  import opened TscInstant

  /** `TscUnavailable`: the error both constructors report. */
  datatype TscUnavailable = TscUnavailable

  /** The error of a failed `std::fs::read_to_string`; its details do not
      matter to the caller. */
  datatype IoError = IoError

  /** The feature bit checked in `EDX` of `CPUID` leaf 1: bit 4, the
      time-stamp-counter flag. */
  const TSC_FEATURE_BIT: nat := 4

  /** The file whose text names the clock sources the kernel offers. */
  const AVAILABLE_CLOCKSOURCE: string := "/sys/devices/system/clocksource/clocksource0/available_clocksource"

  /** The clock-source name that must appear in it. */
  const TSC_NAME: string := "tsc"

  /** Bit `n` of a 32-bit register: shifted down to position 0. */
  function Bit(x: bv32, n: nat): bool
    requires n < 32
  {
    (x >> n) & 1 == 1
  }

  /** `Tsc::try_new_assume_stable`, given the `EDX` value `CPUID` leaf 1
      returned: succeed exactly when the time-stamp-counter bit is set. */
  function TryNewAssumeStable(edx: bv32): (r: Result<Tsc, TscUnavailable>)
    ensures r.Ok? <==> Bit(edx, TSC_FEATURE_BIT)
    ensures r.Err? ==> r.error == TscUnavailable
  {
    if edx & (1 << 4) != 0 then Ok(Tsc) else Err(TscUnavailable)
  }

  /** A register with only the counter bit set passes, one with every bit
      but that one set fails, and a typical register value passes. */
  lemma AssumeStableExamples()
    ensures TryNewAssumeStable(0x10).Ok?
    ensures TryNewAssumeStable(0xFFFF_FFEF).Err?
    ensures TryNewAssumeStable(0xBFEB_FBFF).Ok?
  {
  }

  /** `p` occurs in `s` at position `i`. */
  predicate OccursAt(s: string, p: string, i: int) {
    0 <= i && i + |p| <= |s| && s[i..i + |p|] == p
  }

  /** `str::contains`: `p` occurs in `s` starting at some position. */
  function Contains(s: string, p: string): (r: bool)
    ensures r <==> exists i :: OccursAt(s, p, i)
    decreases |s|
  {
    if |s| < |p| then false
    else if s[..|p|] == p then assert OccursAt(s, p, 0); true
    else
      var r := Contains(s[1..], p);
      assert r ==> exists i :: OccursAt(s, p, i) by {
        if r {
          var i :| OccursAt(s[1..], p, i);
          assert s[i + 1..i + 1 + |p|] == s[1..][i..i + |p|];
          assert OccursAt(s, p, i + 1);
        }
      }
      assert (exists i :: OccursAt(s, p, i)) ==> r by {
        if exists i :: OccursAt(s, p, i) {
          var i :| OccursAt(s, p, i);
          assert i != 0;
          assert s[1..][i - 1..i - 1 + |p|] == s[i..i + |p|];
          assert OccursAt(s[1..], p, i - 1);
        }
      }
      r
  }

  /** `Tsc::try_new_linux_sys`, given the file system as `readToString`
      (what `std::fs::read_to_string` answers for each path): succeed
      exactly when the clock-source file was read and its text contains
      `tsc` somewhere. */
  function TryNewLinuxSys(readToString: string -> Result<string, IoError>): (r: Result<Tsc, TscUnavailable>)
    ensures
      var read := readToString(AVAILABLE_CLOCKSOURCE);
      r.Ok? <==> read.Ok? && exists i :: OccursAt(read.value, TSC_NAME, i)
    ensures r.Err? ==> r.error == TscUnavailable
  {
    var read := readToString(AVAILABLE_CLOCKSOURCE);
    if read.Ok? && Contains(read.value, TSC_NAME) then Ok(Tsc) else Err(TscUnavailable)
  }

  /** A typical listing with the counter among the sources is accepted, and
      so is one that names only `tsc_early`, which the substring test also
      matches. A listing without it is refused, and so is a failed read; only
      the clock-source file is consulted, whatever other files say. */
  lemma LinuxSysExamples()
    ensures TryNewLinuxSys(path => Ok("tsc hpet acpi_pm \n")).Ok?
    ensures TryNewLinuxSys(path => Ok("tsc_early hpet \n")).Ok?
    ensures TryNewLinuxSys(path => Ok("hpet acpi_pm \n")).Err?
    ensures TryNewLinuxSys(path => Err(IoError)).Err?
    ensures TryNewLinuxSys(path => if path == AVAILABLE_CLOCKSOURCE then Ok("hpet acpi_pm \n") else Ok("tsc")).Err?
  {
    assert OccursAt("tsc hpet acpi_pm \n", TSC_NAME, 0);
    assert OccursAt("tsc_early hpet \n", TSC_NAME, 0);
    var s := "hpet acpi_pm \n";
    forall i | 0 <= i && i + 3 <= |s|
      ensures !OccursAt(s, TSC_NAME, i)
    {
      assert s[i..i + 3][0] == s[i] && s[i..i + 3][1] == s[i + 1];
      assert s[i] != 't' || s[i + 1] != 's';
    }
  }
}
