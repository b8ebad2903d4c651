/** Large invariants are stated behind a gate, so that the verifier looks into one
    only where a proof asks for it with `assert Open(...)`.  A gate is always open:
    what stands behind it holds, and only its use is put off. */
module Gates {
  datatype Gate =
    | Kraft | Tree | Prefetch | Decode | Meaning | BlockHeader | Tokens | Spelling
    | Links | Order | Tiling
    | FreeList | Cursor | Regions | Counting | PageTables | Doom | Loaded | Slabs | Backing | Running

  predicate Open(gate: Gate, k: int) { true }
}
