/** internal/schema/lattice_postgres.go: which PostgreSQL type changes widen. */
module Lattice {
  import opened Options
  import opened Text

  datatype Verdict = Verdict(isWidening: bool, known: bool)

  const MAX_INT64 := 0x7FFF_FFFF_FFFF_FFFF

  /** The rank tables; 0 stands for an absent key. */
  function IntRank(t: string): nat {
    if t == "int16" then 1 else if t == "int32" then 2 else if t == "int64" then 3 else 0
  }

  function FloatRank(t: string): nat {
    if t == "float32" then 1 else if t == "float64" then 2 else 0
  }

  /** strconv.Atoi on what \d+ matched: fails on overflow only. */
  function Atoi(s: string): Option<nat>
    requires AllDigits(s)
  {
    if Value(s) <= MAX_INT64 then Some(Value(s)) else None
  }

  lemma AtoiExactly(s: string)
    requires AllDigits(s)
    ensures Atoi(s) == if Value(s) <= 9_223_372_036_854_775_807 then Some(Value(s)) else None
  {}

  /** ^varchar\((\d+)\)$ */
  function ParseVarchar(t: string): Option<nat> {
    if |t| >= 10 && t[..8] == "varchar(" && t[|t| - 1] == ')' && AllDigits(t[8..|t| - 1]) then Atoi(t[8..|t| - 1])
    else None
  }

  /** The class \s of Go's regular expressions. */
  predicate IsBlank(c: char) {
    c == '\t' || c == '\n' || c == '\U{0C}' || c == '\r' || c == ' '
  }

  lemma BlankExactly(c: char)
    ensures IsBlank(c) <==> c in "\t\n\U{0C}\r "
  {}

  function SkipBlanks(s: string): string {
    if s != "" && IsBlank(s[0]) then SkipBlanks(s[1..]) else s
  }

  /** The digits s starts with. */
  function LeadingDigits(s: string): (n: nat)
    ensures n <= |s| && AllDigits(s[..n])
  {
    if s != "" && IsDigit(s[0]) then 1 + LeadingDigits(s[1..]) else 0
  }

  /** (\d+),\s*(\d+) */
  function ParsePair(body: string): Option<(nat, nat)> {
    var n := LeadingDigits(body);
    if n == 0 || n == |body| || body[n] != ',' then None
    else
      var scale := SkipBlanks(body[n + 1..]);
      if scale == "" || !AllDigits(scale) then None
      else if Atoi(body[..n]).Some? && Atoi(scale).Some? then Some((Atoi(body[..n]).value, Atoi(scale).value))
      else None
  }

  /** ^decimal\((\d+),\s*(\d+)\)$ */
  function ParseDecimal(t: string): Option<(nat, nat)> {
    if |t| >= 9 && t[..8] == "decimal(" && t[|t| - 1] == ')' then ParsePair(t[8..|t| - 1]) else None
  }

  function IsWideningPostgres(oldType: string, newType: string): Verdict {
    var old_ := TrimSpace(oldType);
    var new_ := TrimSpace(newType);
    if old_ == new_ then Verdict(true, true)
    else if IntRank(old_) > 0 then
      if IntRank(new_) > 0 then Verdict(IntRank(new_) >= IntRank(old_), true) else Verdict(false, false)
    else if FloatRank(old_) > 0 then
      if FloatRank(new_) > 0 then Verdict(FloatRank(new_) >= FloatRank(old_), true) else Verdict(false, false)
    else
      var oldVar, newVar := ParseVarchar(old_), ParseVarchar(new_);
      var oldIsText, newIsText := old_ == "text", new_ == "text";
      if oldIsText || newIsText || oldVar.Some? || newVar.Some? then
        if oldIsText && newVar.Some? then Verdict(false, true)
        else if oldVar.Some? && newIsText then Verdict(true, true)
        else if oldVar.Some? && newVar.Some? then Verdict(newVar.value >= oldVar.value, true)
        else Verdict(false, false)
      else
        var o, n := ParseDecimal(old_), ParseDecimal(new_);
        if o.Some? && n.Some? then Verdict(n.value.0 >= o.value.0 && n.value.1 >= o.value.1, true)
        else Verdict(false, false)
  }

  // ----- The order the branches implement -----

  /** The type a trimmed type string denotes. */
  datatype Kind = Ints(rank: nat) | Floats(rank: nat) | Varchar(length: nat) | Unbounded
                  | Decimals(precision: nat, scale: nat)
                | Other(name: string)

  function KindOf(typ: string): Kind {
    var t := TrimSpace(typ);
    if IntRank(t) > 0 then Ints(IntRank(t))
    else if FloatRank(t) > 0 then Floats(FloatRank(t))
    else if t == "text" then Unbounded
    else if ParseVarchar(t).Some? then Varchar(ParseVarchar(t).value)
    else if ParseDecimal(t).Some? then Decimals(ParseDecimal(t).value.0, ParseDecimal(t).value.1)
    else Other(t)
  }

  /** One partial order over all families: ranks, lengths with text on top, precision and scale pointwise. */
  predicate Fits(a: Kind, b: Kind) {
    match (a, b)
    case (Ints(m), Ints(n)) => m <= n
    case (Floats(m), Floats(n)) => m <= n
    case (Varchar(m), Varchar(n)) => m <= n
    case (Varchar(_), Unbounded) => true
    case (Unbounded, Unbounded) => true
    case (Decimals(p, s), Decimals(q, u)) => p <= q && s <= u
    case (Other(x), Other(y)) => x == y
    case _ => false
  }

  predicate SameFamily(a: Kind, b: Kind) {
    match a
    case Ints(_) => b.Ints?
    case Floats(_) => b.Floats?
    case Varchar(_) => b.Varchar? || b.Unbounded?
    case Unbounded => b.Varchar? || b.Unbounded?
    case Decimals(_, _) => b.Decimals?
    case Other(_) => a == b
  }

  predicate Widens(oldType: string, newType: string) {
    IsWideningPostgres(oldType, newType) == Verdict(true, true)
  }

  /** The branches decide membership of one family exactly, and inside it exactly the order. */
  lemma LatticeIsFits(oldType: string, newType: string)
    ensures IsWideningPostgres(oldType, newType).known <==> SameFamily(KindOf(oldType), KindOf(newType))
    ensures IsWideningPostgres(oldType, newType).isWidening <==> Fits(KindOf(oldType), KindOf(newType))
    ensures Widens(oldType, newType) <==> Fits(KindOf(oldType), KindOf(newType))
  {}

  /** Widening is a preorder on type strings, and types that widen into each other denote the same type. */
  lemma WideningIsAnOrder(a: string, b: string, c: string)
    ensures Widens(a, a)
    ensures Widens(a, b) && Widens(b, c) ==> Widens(a, c)
    ensures Widens(a, b) && Widens(b, a) <==> KindOf(a) == KindOf(b)
  {
    LatticeIsFits(a, b);
    LatticeIsFits(b, a);
    LatticeIsFits(b, c);
    LatticeIsFits(a, c);
  }

  /** A printed length parses back, unless Atoi overflows; the type is then outside every family. */
  lemma VarcharReadsBack(n: nat)
    ensures ParseVarchar("varchar(" + Decimal(n) + ")") == if n <= MAX_INT64 then Some(n) else None
  {
    var digits := Decimal(n);
    var t := "varchar(" + digits + ")";
    DecimalValue(n);
    assert t[..8] == "varchar(" && t[8..|t| - 1] == digits;
  }

  lemma {:induction false} DigitsUpToComma(digits: string, rest: string)
    requires AllDigits(digits) && rest != "" && !IsDigit(rest[0])
    ensures LeadingDigits(digits + rest) == |digits|
  {
    var s := digits + rest;
    if digits == "" {
      assert s == rest;
    } else {
      assert s[1..] == digits[1..] + rest;
      DigitsUpToComma(digits[1..], rest);
    }
  }

  lemma {:induction false} BlanksSkipped(blanks: string, rest: string)
    requires (forall i | 0 <= i < |blanks| :: IsBlank(blanks[i])) && rest != "" && !IsBlank(rest[0])
    ensures SkipBlanks(blanks + rest) == rest
  {
    var s := blanks + rest;
    if blanks == "" {
      assert s == rest;
    } else {
      assert s[1..] == blanks[1..] + rest;
      BlanksSkipped(blanks[1..], rest);
    }
  }

  lemma PairOfParts(a: string, blanks: string, b: string)
    requires AllDigits(a) && a != "" && AllDigits(b) && b != "" && forall i | 0 <= i < |blanks| :: IsBlank(blanks[i])
    ensures ParsePair(a + ("," + (blanks + b)))
            == if Atoi(a).Some? && Atoi(b).Some? then Some((Atoi(a).value, Atoi(b).value)) else None
  {
    var tail := blanks + b;
    var body := a + ("," + tail);
    DigitsUpToComma(a, "," + tail);
    BlanksSkipped(blanks, b);
    assert body[..|a|] == a && body[|a| + 1..] == tail;
  }

  lemma PairReadsBack(p: nat, s: nat, blanks: string)
    requires forall i | 0 <= i < |blanks| :: IsBlank(blanks[i])
    ensures ParsePair(Decimal(p) + ("," + (blanks + Decimal(s))))
            == if p <= MAX_INT64 && s <= MAX_INT64 then Some((p, s)) else None
  {
    DecimalValue(p);
    DecimalValue(s);
    PairOfParts(Decimal(p), blanks, Decimal(s));
  }

  /** Precision and scale parse back, whatever blanks follow the comma. */
  lemma DecimalReadsBack(p: nat, s: nat, blanks: string)
    requires forall i | 0 <= i < |blanks| :: IsBlank(blanks[i])
    ensures ParseDecimal("decimal(" + (Decimal(p) + ("," + (blanks + Decimal(s)))) + ")")
         == if p <= MAX_INT64 && s <= MAX_INT64 then Some((p, s)) else None
  {
    var body := Decimal(p) + ("," + (blanks + Decimal(s)));
    var t := "decimal(" + body + ")";
    PairReadsBack(p, s, blanks);
    assert t[..8] == "decimal(" && t[8..|t| - 1] == body;
  }

  // ----- The documented cases -----

  /** Integers widen by size and floats by precision, and never the other way. */
  lemma NumbersWiden()
    ensures IsWideningPostgres("int16", "int32") == Verdict(true, true) == IsWideningPostgres("int32", "int64")
    ensures IsWideningPostgres("int16", "int64") == Verdict(true, true) == IsWideningPostgres("float32", "float64")
    ensures IsWideningPostgres("int32", "int16") == Verdict(false, true) == IsWideningPostgres("int64", "int32")
    ensures IsWideningPostgres("int64", "int16") == Verdict(false, true) == IsWideningPostgres("float64", "float32")
  {}

  lemma PlainTrims(s: string)
    requires s != "" && !IsSpace(s[0]) && !IsSpace(s[|s| - 1])
    ensures TrimSpace(s) == s
  {}

  function VarcharType(n: nat): string {
    "varchar(" + Decimal(n) + ")"
  }

  function DecimalType(p: nat, s: nat): string {
    "decimal(" + (Decimal(p) + ("," + Decimal(s))) + ")"
  }

  /** A bounded text type widens to any longer one and to text, never to a shorter one, and text never to a bounded
      one. */
  lemma TextsWiden(m: nat, n: nat)
    requires m <= MAX_INT64 && n <= MAX_INT64
    ensures IsWideningPostgres(VarcharType(m), VarcharType(n)) == Verdict(m <= n, true)
    ensures IsWideningPostgres(VarcharType(m), "text") == Verdict(true, true)
    ensures IsWideningPostgres("text", VarcharType(m)) == Verdict(false, true)
  {
    VarcharReadsBack(m);
    VarcharReadsBack(n);
    PlainTrims(VarcharType(m));
    PlainTrims(VarcharType(n));
    PlainTrims("text");
    VarcharIsNoNumber(m);
    VarcharIsNoNumber(n);
    if VarcharType(m) == VarcharType(n) {
      assert m == n;
    }
  }

  lemma VarcharIsNoNumber(n: nat)
    ensures var t := VarcharType(n); IntRank(t) == 0 && FloatRank(t) == 0 && t != "text"
  {
    assert VarcharType(n)[0] == 'v';
  }

  lemma DecimalIsNoOther(body: string)
    ensures var t := "decimal(" + body + ")";
      TrimSpace(t) == t && IntRank(t) == 0 && FloatRank(t) == 0 && t != "text" && ParseVarchar(t).None?
  {
    var t := "decimal(" + body + ")";
    PlainTrims(t);
    assert t[0] == 'd' && t[..8][0] == 'd';
  }

  lemma DecimalTypeReads(p: nat, s: nat)
    requires p <= MAX_INT64 && s <= MAX_INT64
    ensures ParseDecimal(DecimalType(p, s)) == Some((p, s))
  {
    DecimalReadsBack(p, s, "");
    assert "" + Decimal(s) == Decimal(s);
  }

  /** A decimal type widens exactly where neither precision nor scale shrinks. */
  lemma DecimalsWiden(p: nat, s: nat, q: nat, u: nat)
    requires p <= MAX_INT64 && s <= MAX_INT64 && q <= MAX_INT64 && u <= MAX_INT64
    ensures IsWideningPostgres(DecimalType(p, s), DecimalType(q, u)) == Verdict(p <= q && s <= u, true)
  {
    DecimalTypeReads(p, s);
    DecimalTypeReads(q, u);
    DecimalIsNoOther(Decimal(p) + ("," + Decimal(s)));
    DecimalIsNoOther(Decimal(q) + ("," + Decimal(u)));
    if DecimalType(p, s) == DecimalType(q, u) {
      assert p == q && s == u;
    }
  }

  /** Nothing widens across families. */
  lemma FamiliesApart()
    ensures IsWideningPostgres("int32", "uuid") == Verdict(false, false) == IsWideningPostgres("text", "bytea")
    ensures IsWideningPostgres("int32", "float64") == Verdict(false, false) == IsWideningPostgres("float32", "text")
  {}

  lemma NumbersAreNoTexts(n: nat)
    requires n <= MAX_INT64
    ensures IsWideningPostgres("int64", VarcharType(n)) == Verdict(false, false)
    ensures IsWideningPostgres("float64", VarcharType(n)) == Verdict(false, false)
  {
    PlainTrims(VarcharType(n));
    VarcharIsNoNumber(n);
  }
}
