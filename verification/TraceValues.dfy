/** The values in a recorded trace (`record_locals` and `return_value` in `src/source_recorder.rs`):
    what an integer variable or result is recorded as. */
module TraceValues {
  import opened Words
  import opened Wrappers
  import opened SbfMemory
  import opened DebugModel
  import opened FrameVariables
  import opened ValueDecoding
  import opened TypedValues
  import opened ShadowReplay
  import opened SourceRecorder

  /** An integer variable is recorded exactly when its type is behind at most 32 aliases and its bytes
      can be read, and then as the number they hold exactly when `decode_base` records them right; one
      the source cannot reserve makes it panic. */
  lemma VariableDenotesIff(s: Session, f: Function, v: Variable, a: u64, regs: Registers, regions: seq<Region>,
                           encoding: Encoding, size: u64)
    requires s.Defined() && v.typeRef.Some? && IsIntegerType(s.debug.types, v.typeRef.value, encoding, size)
    ensures
      var recorded := LocalOf(s, f, v, a, regs, regions);
      match ReadVariable(s.debug.types, regions, f, v, a, regs, s.t.manualStackFrames)
      case NoReading => recorded == []
      case CapacityOverflow => size > MAX_CAPACITY && recorded == [Local(v.name, Panicked(v.typeRef.value))]
      case Bytes(bytes) =>
        && AliasRank(s.debug.types, v.typeRef.value) <= MAX_SIZE_DEPTH && |bytes| == size
        && |recorded| == 1 && recorded[0].Local? && recorded[0].name == v.name
        && (Denotes(recorded[0].value) == Some(BaseValue(encoding, bytes)) <==> RecordedRight(encoding, bytes))
  {
    BaseSizeKnownIff(s.debug.types, v.typeRef.value, encoding, size);
    var reading := ReadVariable(s.debug.types, regions, f, v, a, regs, s.t.manualStackFrames);
    if reading.Bytes? {
      WholeValueIff(s.debug.types, regions, v.typeRef.value, encoding, size, reading.bytes, 0);
    }
  }

  /** An integer result of up to 8 bytes, behind at most 32 aliases, is recorded as the number in the
      low bytes of r0; any other integer result is not recorded. */
  lemma ResultDenotes(types: seq<TypeDesc>, regions: seq<Region>, t: TypeRef, r0: u64, encoding: Encoding, size: u64)
    requires AliasesEnd(types) && IsIntegerType(types, t, encoding, size)
    ensures
      var v := ReturnValue(types, regions, Some(t), r0);
      if size <= 8 && AliasRank(types, t) <= MAX_SIZE_DEPTH then
        Denotes(v) == Some(BaseValue(encoding, ToLe(r0, 8)[..size]))
      else v == NoValue
  {
    BaseSizeKnownIff(types, t, encoding, size);
    if size <= 8 && AliasRank(types, t) <= MAX_SIZE_DEPTH {
      WholeValueIff(types, regions, t, encoding, size, ToLe(r0, 8)[..size], 0);
    }
  }
}
