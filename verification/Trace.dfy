/** One traced instruction, with the cycles and resources the simulator logged for it
    (algo/core/instruction.py). */
module Trace {

  datatype Option<+T> = None | Some(value: T)

  datatype OpType =
    | MemRead | FloatMemRead | MemWrite | FloatMemWrite
    | OpIntAlu | IntMult | IntDiv
    | FloatAdd | FloatCmp | FloatCvt
    | FloatMult | FloatMultAcc | FloatMisc | FloatDiv | FloatSqrt
    | NoOpClass

  const CONTROL: seq<string> := ["beq", "bne", "bltu", "blt", "bgeu", "bge", "jalr", "jal", "c_beqz"]

  datatype Inst = Inst(
    seqNo: nat,
    mnemonic: string,
    opType: OpType,
    fetchCacheLine: int,
    processCacheCompletion: int,
    fetch: int,
    decode: int,
    blockFromRob: int,
    blockFromRf: int,
    blockFromIq: int,
    blockFromLq: int,
    blockFromSq: int,
    rename: int,
    dispatch: int,
    insertReadyList: int,
    issue: int,
    memory: int,
    complete: int,
    completeMemory: int,
    commit: int,
    rob: string,
    lq: string,
    sq: string,
    iq: string,
    fu: string,
    src: seq<int>,
    dst: int)
  {
    predicate IsLoad() { opType.MemRead? || opType.FloatMemRead? }
    predicate IsStore() { opType.MemWrite? || opType.FloatMemWrite? }
    predicate IsMem() { IsLoad() || IsStore() }
    predicate IsControl() { exists c | c in CONTROL :: c <= mnemonic }
    predicate UseIntAlu() { opType.OpIntAlu? }
    predicate UseIntMultDiv() { opType.IntMult? || opType.IntDiv? }
    predicate UseFpAlu() { opType.FloatAdd? || opType.FloatCmp? || opType.FloatCvt? }
    predicate UseFpMultDiv() {
      opType.FloatMult? || opType.FloatMultAcc? || opType.FloatMisc? || opType.FloatDiv? || opType.FloatSqrt?
    }
    predicate UseRdWrPort() { IsMem() }
    predicate UseIntRf() { UseIntAlu() || UseIntMultDiv() || UseRdWrPort() }
    predicate UseFpRf() { UseFpAlu() || UseFpMultDiv() }

    /** Fetch completion and decode-queue entry fall in one cycle: the two stages share a node. */
    predicate MergesFetch() { processCacheCompletion == fetch }
    /** Dispatch and issue fall in one cycle. */
    predicate MergesIssue() { dispatch == issue }
    /** Memory access and completion share a node: every store, and loads that hit at once. */
    predicate MergesMemory() { IsStore() || (IsLoad() && memory == completeMemory) }

    /** What the trace format promises: a store completes at its memory cycle, a load when its data returns. */
    predicate WellFormed() {
      && (IsStore() ==> complete == memory)
      && (IsLoad() ==> complete == completeMemory)
    }

    /** The instruction's result time as the RAW search reads it. */
    function ResultTime(): int { if IsLoad() then completeMemory else complete }
  }
}
