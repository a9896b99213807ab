/** Cache configuration, the derived geometry and the address decomposition. */
module CacheGeometry {
  import opened Basics
  import opened Bits
  import opened EvictionPolicy

  datatype AccessType = ReadAccess | WriteAccess | InstructionFetch
  datatype WritePolicy = WriteBack | WriteThrough
  datatype WriteAllocatePolicy = WriteAllocate | NoWriteAllocate

  datatype CacheConfig = CacheConfig(
    cacheSize: nat, lineSize: nat, associativity: nat,
    eviction: PolicyKind, writePolicy: WritePolicy, writeAllocate: WriteAllocatePolicy)

  /** The fields derived once at construction. */
  datatype Geometry = Geometry(lineSize: nat, ways: nat, numSets: nat, offsetBits: nat, indexBits: nat, indexMask: nat)

  datatype GeometryError = BadLineSize | BadCacheSize | BadAssociativity | SetsNotPowerOfTwo

  /** `exact_log2`: the error case is the exception for a value that is not a power of two. */
  function ExactLog2(value: nat): Option<nat> {
    if value == 0 || BitAnd(value, value - 1) != 0 then None
    else (PowerOfTwoTest(value); Some(Log2(value)))
  }

  function DeriveGeometry(cfg: CacheConfig): Result<Geometry, GeometryError> {
    if cfg.lineSize < 8 || BitAnd(cfg.lineSize, cfg.lineSize - 1) != 0 then Err(BadLineSize)
    else if cfg.cacheSize == 0 || cfg.cacheSize % cfg.lineSize != 0 then Err(BadCacheSize)
    else
      var totalLines := cfg.cacheSize / cfg.lineSize;
      var ways := if cfg.associativity == 0 then totalLines else cfg.associativity;
      if ways == 0 || totalLines % ways != 0 then Err(BadAssociativity)
      else
        var numSets := totalLines / ways;
        match (ExactLog2(cfg.lineSize), if numSets == 1 then Some(0) else ExactLog2(numSets))
        case (Some(ob), Some(ib)) =>
          Ok(Geometry(cfg.lineSize, ways, numSets, ob, ib, if numSets == 1 then 0 else numSets - 1))
        case _ => Err(SetsNotPowerOfTwo)
  }

  /** A geometry the constructor can produce on a 64-bit machine. */
  ghost predicate GeometryOk(g: Geometry) {
    && 8 <= g.lineSize && 1 <= g.ways && 1 <= g.numSets
    && Pow2(g.offsetBits) == g.lineSize
    && Pow2(g.indexBits) == g.numSets
    && g.indexMask == g.numSets - 1
    && g.lineSize * g.numSets < WORD
  }

  /** When the constructor accepts: every documented condition, and the set count a power of two. */
  ghost predicate Acceptable(cfg: CacheConfig) {
    && 8 <= cfg.lineSize && IsPowerOfTwo(cfg.lineSize)
    && 0 < cfg.cacheSize && cfg.cacheSize % cfg.lineSize == 0
    && var lines := cfg.cacheSize / cfg.lineSize;
       cfg.associativity == 0
       || (lines % cfg.associativity == 0 && IsPowerOfTwo(lines / cfg.associativity))
  }

  /** The constructor accepts exactly the acceptable configurations. */
  lemma AcceptedIffAcceptable(cfg: CacheConfig)
    ensures DeriveGeometry(cfg).Ok? <==> Acceptable(cfg)
  {
    if 8 <= cfg.lineSize {
      PowerOfTwoTest(cfg.lineSize);
      if 0 < cfg.cacheSize && cfg.cacheSize % cfg.lineSize == 0 {
        var lines := cfg.cacheSize / cfg.lineSize;
        QuotientPositive(cfg.cacheSize, cfg.lineSize);
        DivModUnique(lines, lines, 1, 0);
        if cfg.associativity > 0 && lines % cfg.associativity == 0 {
          QuotientPositive(lines, cfg.associativity);
          PowerOfTwoTest(lines / cfg.associativity);
        }
      }
    }
  }

  /** Which check speaks first; the set-count check is the last one left. */
  lemma ErrorsInOrder(cfg: CacheConfig)
    ensures var r := DeriveGeometry(cfg);
            var badLine := cfg.lineSize < 8 || !IsPowerOfTwo(cfg.lineSize);
            && (r == Err(BadLineSize) <==> badLine)
            && (!badLine ==>
                  var badSize := cfg.cacheSize == 0 || cfg.cacheSize % cfg.lineSize != 0;
                  && (r == Err(BadCacheSize) <==> badSize)
                  && (!badSize ==>
                        (r == Err(BadAssociativity) <==>
                           cfg.associativity != 0 && (cfg.cacheSize / cfg.lineSize) % cfg.associativity != 0)))
  {
    if 8 <= cfg.lineSize {
      PowerOfTwoTest(cfg.lineSize);
      if cfg.cacheSize > 0 && cfg.cacheSize % cfg.lineSize == 0 {
        var lines := cfg.cacheSize / cfg.lineSize;
        QuotientPositive(cfg.cacheSize, cfg.lineSize);
        DivModUnique(lines, lines, 1, 0);
      }
    }
  }

  /** The ways a configuration asks for: its associativity, or every line if that is zero. */
  function ConfiguredWays(cfg: CacheConfig): nat
    requires cfg.lineSize > 0
  {
    if cfg.associativity > 0 then cfg.associativity else cfg.cacheSize / cfg.lineSize
  }

  /** An accepted cache has the ways it was configured with, and zero means one set of all lines. */
  lemma WaysAsConfigured(cfg: CacheConfig)
    requires DeriveGeometry(cfg).Ok?
    ensures var g := DeriveGeometry(cfg).value;
            && cfg.lineSize > 0
            && (cfg.associativity > 0 ==>
                  g.ways == cfg.associativity && g.numSets == (cfg.cacheSize / cfg.lineSize) / cfg.associativity)
            && (cfg.associativity == 0 ==> g.ways == cfg.cacheSize / cfg.lineSize && g.numSets == 1)
            && g.ways == ConfiguredWays(cfg)
  {
    QuotientPositive(cfg.cacheSize, cfg.lineSize);
    var lines := cfg.cacheSize / cfg.lineSize;
    DivModUnique(lines, lines, 1, 0);
  }

  lemma QuotientPositive(x: nat, d: nat)
    requires x > 0 && d > 0 && x % d == 0
    ensures x / d > 0
  {
    ExactDiv(x, d);
  }

  lemma CapacityBound(sets: nat, ways: nat, lineSize: nat, lines: nat, size: nat)
    requires lines == sets * ways && size == lines * lineSize && size > 0
    ensures sets >= 1 && ways >= 1 && lineSize * sets <= size && sets * ways * lineSize == size
  {
    assert sets != 0 && ways != 0;
    MulAssoc(ways, sets, lineSize);
    MulAtLeast(ways, sets * lineSize);
  }

  lemma DerivedFields(cfg: CacheConfig)
    requires DeriveGeometry(cfg).Ok?
    ensures var g, lines := DeriveGeometry(cfg).value, cfg.cacheSize / cfg.lineSize;
            && g.lineSize == cfg.lineSize && 8 <= g.lineSize
            && cfg.cacheSize == lines * g.lineSize && lines == g.numSets * g.ways && 0 < cfg.cacheSize
            && Pow2(g.offsetBits) == g.lineSize && Pow2(g.indexBits) == g.numSets
            && g.indexMask == g.numSets - 1
  {
    var lines := cfg.cacheSize / cfg.lineSize;
    ExactDiv(cfg.cacheSize, cfg.lineSize);
    ExactDiv(lines, DeriveGeometry(cfg).value.ways);
  }

  /**
   What an accepted configuration yields: sets * ways * line size is the capacity, both
   field widths are exact, and together they shift by at most 63 bits.
   */
  lemma GeometryFacts(cfg: CacheConfig)
    requires DeriveGeometry(cfg).Ok? && cfg.cacheSize < WORD
    ensures var g := DeriveGeometry(cfg).value;
            && GeometryOk(g) && g.lineSize == cfg.lineSize
            && g.numSets * g.ways * g.lineSize == cfg.cacheSize
            && g.offsetBits + g.indexBits <= 63
  {
    var g, lines := DeriveGeometry(cfg).value, cfg.cacheSize / cfg.lineSize;
    DerivedFields(cfg);
    CapacityBound(g.numSets, g.ways, g.lineSize, lines, cfg.cacheSize);
    ShiftBelow64(g);
  }

  lemma ShiftBelow64(g: Geometry)
    requires GeometryOk(g)
    ensures g.offsetBits + g.indexBits <= 63
  {
    var k := g.offsetBits + g.indexBits;
    Pow2Add(g.offsetBits, g.indexBits);
    Pow2Of64();
    if k > 64 {
      Pow2Monotone(64, k);
    }
  }

  // ---- Address fields ----

  function ExtractOffset(g: Geometry, address: nat): nat {
    BitAnd(address, Pow2(g.offsetBits) - 1)
  }

  function ExtractIndex(g: Geometry, address: nat): nat {
    BitAnd(ShiftRight(address, g.offsetBits), g.indexMask)
  }

  function ExtractTag(g: Geometry, address: nat): nat {
    ShiftRight(address, g.offsetBits + g.indexBits)
  }

  function ReconstructAddress(g: Geometry, tag: nat, index: nat): nat {
    BitOr(ShiftLeft(tag, g.offsetBits + g.indexBits), ShiftLeft(index, g.offsetBits))
  }

  /** The memory line an address falls in. */
  function LineOf(g: Geometry, address: nat): nat
    requires g.lineSize > 0
  {
    address / g.lineSize
  }

  lemma DivDiv(x: nat, a: nat, b: nat)
    requires a > 0 && b > 0
    ensures x / (a * b) == (x / a) / b
  {
    var q, r := (x / a) / b, (x / a) % b;
    assert x == a * (x / a) + x % a && x / a == b * q + r;
    assert x == q * (a * b) + (a * r + x % a) by {
      assert a * (b * q + r) == q * (a * b) + a * r;
    }
    assert a * r + x % a < a * b by {
      assert a * b - a * r == a * (b - r);
      MulAtLeast(b - r, a);
    }
    MulNonNegative(a, r);
    DivModUnique(x, a * b, q, a * r + x % a);
  }

  /** The masked and shifted fields are the line's remainder and quotient by the set count. */
  lemma FieldsAreDivMod(g: Geometry, address: nat)
    requires GeometryOk(g)
    ensures ExtractOffset(g, address) == address % g.lineSize
    ensures ExtractIndex(g, address) == LineOf(g, address) % g.numSets
    ensures ExtractTag(g, address) == LineOf(g, address) / g.numSets
  {
    var line := LineOf(g, address);
    AndLowMask(address, g.offsetBits);
    AndLowMask(line, g.indexBits);
    Pow2Add(g.offsetBits, g.indexBits);
    DivDiv(address, g.lineSize, g.numSets);
  }

  /** Rebuilding an address from in-range fields gives the first byte of that line. */
  lemma ReconstructIsLineStart(g: Geometry, tag: nat, index: nat)
    requires GeometryOk(g) && index < g.numSets
    requires (tag * g.numSets + index) * g.lineSize < WORD
    ensures ReconstructAddress(g, tag, index) == (tag * g.numSets + index) * g.lineSize
  {
    var k := g.offsetBits + g.indexBits;
    Pow2Add(g.offsetBits, g.indexBits);
    var hi, lo := tag * Pow2(k), index * g.lineSize;
    FieldsFit(tag, index, g.numSets, g.lineSize);
    DivModUnique(hi, WORD, 0, hi);
    DivModUnique(lo, WORD, 0, lo);
    OrDisjoint(tag, lo, k);
  }

  lemma FieldsFit(tag: nat, index: nat, sets: nat, lineSize: nat)
    requires index < sets && lineSize > 0
    ensures tag * (lineSize * sets) + index * lineSize == (tag * sets + index) * lineSize
    ensures 0 <= tag * (lineSize * sets) && 0 <= index * lineSize < lineSize * sets
  {
    MulAssoc(tag, sets, lineSize);
    MulNonNegative(tag, lineSize * sets);
    MulNonNegative(index, lineSize);
    MulAtLeast(sets - index, lineSize);
  }

  lemma LineSplits(address: nat, lineSize: nat, sets: nat)
    requires lineSize > 0 && sets > 0
    ensures var line := address / lineSize;
            && (line / sets) * sets + line % sets == line
            && line * lineSize + address % lineSize == address
  {
    DivIdentity(address, lineSize);
    DivIdentity(address / lineSize, sets);
  }

  /** Decomposing any 64-bit address and rebuilding it loses nothing. */
  lemma AddressRoundTrip(g: Geometry, address: nat)
    requires GeometryOk(g) && address < WORD
    ensures ReconstructAddress(g, ExtractTag(g, address), ExtractIndex(g, address)) + ExtractOffset(g, address)
            == address
  {
    FieldsAreDivMod(g, address);
    var line := LineOf(g, address);
    LineSplits(address, g.lineSize, g.numSets);
    ReconstructIsLineStart(g, line / g.numSets, line % g.numSets);
  }

  /** Conversely the fields of a rebuilt address are the fields it was built from. */
  lemma FieldsRoundTrip(g: Geometry, tag: nat, index: nat, offset: nat)
    requires GeometryOk(g) && index < g.numSets && offset < g.lineSize
    requires (tag * g.numSets + index) * g.lineSize < WORD
    ensures var a := ReconstructAddress(g, tag, index) + offset;
            ExtractTag(g, a) == tag && ExtractIndex(g, a) == index && ExtractOffset(g, a) == offset
  {
    ReconstructIsLineStart(g, tag, index);
    var line := tag * g.numSets + index;
    MulNonNegative(tag, g.numSets);
    var a := line * g.lineSize + offset;
    DivModUnique(a, g.lineSize, line, offset);
    DivModUnique(line, g.numSets, tag, index);
    FieldsAreDivMod(g, a);
  }

  /** Two addresses share tag and index exactly when they lie in the same line. */
  lemma SameFieldsSameLine(g: Geometry, a: nat, b: nat)
    requires GeometryOk(g)
    ensures ExtractTag(g, a) == ExtractTag(g, b) && ExtractIndex(g, a) == ExtractIndex(g, b)
            <==> LineOf(g, a) == LineOf(g, b)
  {
    FieldsAreDivMod(g, a);
    FieldsAreDivMod(g, b);
    var x, y := LineOf(g, a), LineOf(g, b);
    DivIdentity(x, g.numSets);
    DivIdentity(y, g.numSets);
  }

  /** An address rebuilt at one level names the same line at any level with the same line size. */
  lemma EvictedAddressNamesLine(g: Geometry, other: Geometry, tag: nat, index: nat)
    requires GeometryOk(g) && GeometryOk(other) && g.lineSize == other.lineSize
    requires index < g.numSets && (tag * g.numSets + index) * g.lineSize < WORD
    ensures LineOf(other, ReconstructAddress(g, tag, index)) == tag * g.numSets + index
  {
    ReconstructIsLineStart(g, tag, index);
    MulNonNegative(tag, g.numSets);
    DivModUnique((tag * g.numSets + index) * g.lineSize, g.lineSize, tag * g.numSets + index, 0);
  }
}
