/** Rules of zlog: which categories and which levels they apply to, and the level bitmap that
    says the same thing bit by bit. */
module ZlogRule {

  /** compare_char: '*', '.', '=' and '!'. */
  datatype Compare = Any | AtLeast | Equal | Other

  /** What zlog_rule_output decides, before it calls the output function. */
  predicate Outputs(compare: Compare, ruleLevel: int, level: nat) {
    match compare
    case Any => true
    case AtLeast => level >= ruleLevel
    case Equal => level == ruleLevel
    case Other => level != ruleLevel
  }

  // ---------------------------------------------------------------- bits

  type Bitmap = s: seq<bv8> | |s| == 32 witness seq(32, _ => 0)

  function Zeros(): (z: Bitmap)
    ensures forall i | 0 <= i < 32 :: z[i] == 0
  {
    seq(32, _ => 0)
  }

  /** The assignment of an int to an unsigned char. */
  function LowByte(x: bv32): bv8 {
    (x & 0xFF) as bv8
  }

  /** 1 << (7 - k) */
  function OneBit(k: int): bv8
    requires -1 <= k < 8
  {
    LowByte(1 << (7 - k))
  }

  /** ~(1 << (7 - k)) */
  function AllButOneBit(k: int): bv8
    requires -1 <= k < 8
  {
    LowByte(!(1 << (7 - k)))
  }

  /** ~(0xFF << (8 - k)) */
  function BitsFrom(k: int): bv8
    requires -1 <= k < 8
  {
    LowByte(!((0xFF as bv32) << (8 - k)))
  }

  /** (b >> (7 - j)) & 0x01 */
  predicate Bit(b: bv8, j: nat)
    requires j < 8
  {
    (b >> (7 - j)) & 1 == 1
  }

  function Or(a: bv8, b: bv8): bv8 {
    a | b
  }

  function And(a: bv8, b: bv8): bv8 {
    a & b
  }

  lemma BitOfConstants(j: nat)
    requires j < 8
    ensures !Bit(0, j) && Bit(0xFF, j)
  {
    match j { case 0 => case 1 => case 2 => case 3 => case 4 => case 5 => case 6 => case 7 => }
  }

  lemma BitOfOr(a: bv8, b: bv8, j: nat)
    requires j < 8
    ensures Bit(Or(a, b), j) <==> Bit(a, j) || Bit(b, j)
  {
    match j { case 0 => case 1 => case 2 => case 3 => case 4 => case 5 => case 6 => case 7 => }
  }

  lemma BitOfOne(k: int, j: nat)
    requires -1 <= k < 8 && j < 8
    ensures Bit(Or(0, OneBit(k)), j) <==> j == k
  {
    assert OneBit(-1) == 0 && OneBit(0) == 0x80 && OneBit(1) == 0x40 && OneBit(2) == 0x20 && OneBit(3) == 0x10;
    assert OneBit(4) == 8 && OneBit(5) == 4 && OneBit(6) == 2 && OneBit(7) == 1;
  }

  lemma BitOfAllButOne(k: int, j: nat)
    requires -1 <= k < 8 && j < 8
    ensures Bit(And(0xFF, AllButOneBit(k)), j) <==> j != k
  {
    assert AllButOneBit(-1) == 0xFF && AllButOneBit(0) == 0x7F && AllButOneBit(1) == 0xBF && AllButOneBit(2) == 0xDF;
    assert AllButOneBit(3) == 0xEF && AllButOneBit(4) == 0xF7 && AllButOneBit(5) == 0xFB;
    assert AllButOneBit(6) == 0xFD && AllButOneBit(7) == 0xFE;
  }

  lemma BitOfFrom(k: int, j: nat)
    requires -1 <= k < 8 && j < 8
    ensures Bit(Or(0, BitsFrom(k)), j) <==> j >= k
  {
    assert BitsFrom(-1) == 0xFF && BitsFrom(0) == 0xFF && BitsFrom(1) == 0x7F && BitsFrom(2) == 0x3F;
    assert BitsFrom(3) == 0x1F && BitsFrom(4) == 0xF && BitsFrom(5) == 7 && BitsFrom(6) == 3 && BitsFrom(7) == 1;
  }

  // ---------------------------------------------------------------- bitmaps

  /** The bit that zlog_category_needless_level looks at. */
  predicate Opens(bitmap: Bitmap, level: nat)
    requires level < 256
  {
    Bit(bitmap[level / 8], level % 8)
  }

  /** A rule as zlog_rule_new makes it. The level is -1 when its name is not in the level list. */
  datatype Rule = Rule(category: string, compare: Compare, level: int, bitmap: Bitmap)

  predicate LevelInRange(level: int) {
    -1 <= level < 256
  }

  /** The bitmap says what zlog_rule_output decides. */
  ghost predicate Sound(r: Rule) {
    && LevelInRange(r.level) && r.category != []
    && forall level: nat | level < 256 :: Opens(r.bitmap, level) <==> Outputs(r.compare, r.level, level)
  }

  /** `/` and `%` of C, which truncate: for the level -1 they give 0 and -1. */
  function Quotient(level: int): (q: int)
    requires LevelInRange(level)
    ensures 0 <= q < 32
  {
    if level < 0 then 0 else level / 8
  }

  function Remainder(level: int): (k: int)
    requires LevelInRange(level)
    ensures -1 <= k < 8
  {
    if level < 0 then -1 else level % 8
  }

  /** The byte at index i of the bitmap of a rule. */
  function RuleByte(compare: Compare, ruleLevel: int, i: nat): bv8
    requires LevelInRange(ruleLevel)
  {
    var at, k := Quotient(ruleLevel), Remainder(ruleLevel);
    match compare
    case Equal => if i == at then Or(0, OneBit(k)) else 0
    case Other => if i == at then And(0xFF, AllButOneBit(k)) else 0xFF
    case Any => 0xFF
    case AtLeast => if i < at then 0 else if i == at then Or(0, BitsFrom(k)) else 0xFF
  }

  /** Every bit of a rule's bitmap is the decision of the rule at that level. */
  lemma RuleByteDecides(compare: Compare, ruleLevel: int, level: nat)
    requires LevelInRange(ruleLevel) && level < 256
    ensures Bit(RuleByte(compare, ruleLevel, level / 8), level % 8) <==> Outputs(compare, ruleLevel, level)
  {
    hide Bit, OneBit, AllButOneBit, BitsFrom, Or, And;
    var at, k := Quotient(ruleLevel), Remainder(ruleLevel);
    BitOfConstants(level % 8);
    BitOfOne(k, level % 8);
    BitOfAllButOne(k, level % 8);
    BitOfFrom(k, level % 8);
  }

  /** The part of zlog_rule_new that fills in level_bitmap. */
  method FillBitmap(bitmap: array<bv8>, compare: Compare, ruleLevel: int)
    requires bitmap.Length == 32 && LevelInRange(ruleLevel)
    modifies bitmap
    ensures forall i | 0 <= i < 32 :: bitmap[i] == RuleByte(compare, ruleLevel, i)
  {
    hide OneBit, AllButOneBit, BitsFrom, Or, And;
    var at, k := Quotient(ruleLevel), Remainder(ruleLevel);
    match compare
    case Equal =>
      forall i | 0 <= i < 32 { bitmap[i] := 0; }
      bitmap[at] := Or(bitmap[at], OneBit(k));
    case Other =>
      forall i | 0 <= i < 32 { bitmap[i] := 0xFF; }
      bitmap[at] := And(bitmap[at], AllButOneBit(k));
    case Any =>
      forall i | 0 <= i < 32 { bitmap[i] := 0xFF; }
    case AtLeast =>
      forall i | 0 <= i < 32 { bitmap[i] := 0; }
      bitmap[at] := Or(bitmap[at], BitsFrom(k));
      forall i | at + 1 <= i < 32 { bitmap[i] := 0xFF; }
  }

  /** zlog_rule_new, as far as it decides category and level. */
  method NewRule(category: string, compare: Compare, level: int) returns (r: Rule)
    requires category != [] && LevelInRange(level)
    ensures r.category == category && r.compare == compare && r.level == level && Sound(r)
  {
    hide Bit, RuleByte, Outputs;
    var bitmap := new bv8[32];
    FillBitmap(bitmap, compare, level);
    r := Rule(category, compare, level, bitmap[..]);
    forall lv: nat | lv < 256 ensures Opens(r.bitmap, lv) <==> Outputs(compare, level, lv) {
      RuleByteDecides(compare, level, lv);
    }
  }

  // ---------------------------------------------------------------- categories

  /** strncmp(a, b, n) == 0 for strings without a NUL. */
  predicate SameStart(a: string, b: string, n: nat) {
    (if |a| < n then a else a[..n]) == (if |b| < n then b else b[..n])
  }

  /** zlog_rule_match_category */
  function MatchCategory(r: Rule, category: string): bool
    requires r.category != []
  {
    if r.category == "*" then true
    else if r.category == category then true
    else
      var len := |r.category|;
      if r.category[len - 1] == '_' then
        var n := if |category| == len - 1 then len - 1 else len;
        SameStart(r.category, category, n)
      else false
  }

  /** A rule for `aa_` is for aa and for every aa_xx, and not for aa1_xx; other rules are for the
      category they name, and * is for all. */
  lemma MatchIsPrefix(r: Rule, category: string)
    requires r.category != []
    ensures MatchCategory(r, category) <==>
              || r.category == "*"
              || r.category == category
              || (exists stem :: r.category == stem + "_" && category == stem)
              || (exists stem, rest :: r.category == stem + "_" && category == stem + "_" + rest)
  {
    var len := |r.category|;
    var stem := r.category[..len - 1];
    if MatchCategory(r, category) && r.category != "*" && r.category != category {
      assert r.category == stem + "_";
      if |category| == len - 1 {
        assert category == stem;
      } else {
        assert category == stem + "_" + category[len..];
      }
    }
    if s :| r.category == s + "_" && category == s { assert r.category[len - 1] == '_'; }
    if s, rest :| r.category == s + "_" && category == s + "_" + rest { assert r.category[len - 1] == '_'; }
  }

  /** zlog_rule_is_wastebin */
  predicate IsWastebin(r: Rule) {
    r.category == "!"
  }
}
