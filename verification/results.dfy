/**
 The failure vocabulary of the patch finder. Each C++ `throw` of the
 original (a `tihmstar::exception` or a `std::out_of_range`) becomes an
 `Err` carrying one of these values, and every fallible operation returns
 a `Result`, which works with Dafny's `:-` operator.
 */
module Results {

  datatype Error =
    /** A read past the end of the image buffer (undefined behaviour in the original). */
    | Truncated
    /** `find_load_command64` walked every load command without a match. */
    | LoadCommandNotFound(cmd: bv32)
    /** `find_section` walked every section header without a match. */
    | SectionNotFound
    /** `find_sym` walked the whole symbol table without a match. */
    | SymbolNotFound
    /** `std::vector::at(0)` on an empty working set (a `std::out_of_range`). */
    | EmptyWorkingSet
    /** A cursor was constructed at an address outside every segment. */
    | LocationOutOfRange
    /** `++` stepped past the end of the last segment (a `std::out_of_range`). */
    | Overflow
    /** `--` stepped below a segment it cannot leave (a `std::out_of_range`). */
    | Underflow
    /** A field accessor was called on an instruction of unknown type. */
    | UnknownInstruction
    /** A field accessor was called on an instruction type without that field. */
    | NoSuchOperand
    /** A locator's anchor string is not in any segment. */
    | StringNotFound
    /** No adrp/add pair references the anchor string. */
    | LiteralRefNotFound
    /** The no-op run has a size the original cannot allocate (undefined behaviour). */
    | BadPatchSize

  datatype Result<+T> = Ok(value: T) | Err(error: Error) {

    predicate IsFailure() {
      Err?
    }

    function PropagateFailure<U>(): Result<U>
      requires Err?
    {
      Err(error)
    }

    function Extract(): T
      requires Ok?
    {
      value
    }
  }

  datatype Option<+T> = None | Some(value: T)
}
