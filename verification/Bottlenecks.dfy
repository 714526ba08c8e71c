/** The bottlenecks that cycles of the critical path are charged to (algo/core/arch_bottleneck.py). */
module Bottlenecks {
  import opened Sorting

  datatype Bottleneck =
    | Base | IcacheMiss | DcacheMiss | BPMiss | ROB | LQ | SQ | IntRF | FpRF | IQ
    | IntAlu | IntMultDiv | FpAlu | FpMultDiv | RdWrPort | RAW | Virtual

  /** Registration order: it fixes the order of the counters and of the report's last lines. */
  const ALL: seq<Bottleneck> :=
    [Base, IcacheMiss, DcacheMiss, BPMiss, ROB, LQ, SQ, IntRF, FpRF, IQ,
     IntAlu, IntMultDiv, FpAlu, FpMultDiv, RdWrPort, RAW, Virtual]

  type Counters = map<Bottleneck, int>

  function Label(b: Bottleneck): string {
    match b
    case Base => "Base"
    case IcacheMiss => "I-cache Miss"
    case DcacheMiss => "D-cache Miss"
    case BPMiss => "BP Miss"
    case ROB => "ROB"
    case LQ => "LQ"
    case SQ => "SQ"
    case IntRF => "INT RF"
    case FpRF => "FP RF"
    case IQ => "IQ"
    case IntAlu => "IntAlu"
    case IntMultDiv => "IntMultDiv"
    case FpAlu => "FpAlu"
    case FpMultDiv => "FpMultDiv"
    case RdWrPort => "RdWrPort"
    case RAW => "RAW"
    case Virtual => "Virtual"
  }

  /** Position of a bottleneck in ALL. */
  function Index(b: Bottleneck): nat {
    match b
    case Base => 0 case IcacheMiss => 1 case DcacheMiss => 2 case BPMiss => 3
    case ROB => 4 case LQ => 5 case SQ => 6 case IntRF => 7 case FpRF => 8 case IQ => 9
    case IntAlu => 10 case IntMultDiv => 11 case FpAlu => 12 case FpMultDiv => 13
    case RdWrPort => 14 case RAW => 15 case Virtual => 16
  }

  /** ALL lists every bottleneck exactly once. */
  lemma {:induction false} AllComplete()
    ensures NoRepeats(ALL)
    ensures forall b: Bottleneck :: b in ALL
  {
    assert forall i | 0 <= i < |ALL| :: Index(ALL[i]) == i;
    forall b: Bottleneck ensures b in ALL {
      assert ALL[Index(b)] == b;
    }
  }

  ghost predicate Full(m: Counters) {
    forall b: Bottleneck :: b in m
  }

  function Total(m: Counters, bs: seq<Bottleneck>): int
    requires forall b | b in bs :: b in m
  {
    if bs == [] then 0 else m[bs[0]] + Total(m, bs[1..])
  }

  /** Charging one counter moves the total by exactly the charge. */
  lemma {:induction false} TotalAfterCharge(m: Counters, bs: seq<Bottleneck>, b: Bottleneck, x: int)
    requires Full(m) && NoRepeats(bs)
    ensures Total(m[b := m[b] + x], bs) == Total(m, bs) + (if b in bs then x else 0)
  {
    if bs != [] {
      TotalAfterCharge(m, bs[1..], b, x);
    }
  }
}
