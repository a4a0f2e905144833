/** A space sector: integer coordinates, the derived distance and sector code,
    and the colour and link fields that the two sector trees update in place.
    Links are handles into the arena of the tree that owns the sector. */
module Sectors {

  datatype Option<T> = None | Some(value: T)

  /** Identity of a node in a tree's arena (the model of a `Sector*`). */
  type Handle = nat

  /** A possibly null pointer to a sector. */
  datatype Link = Null | Ptr(h: Handle)

  /** The BST key, ordered lexicographically on (x, y, z). */
  type Key = (int, int, int)

  const RED: bool := true
  const BLACK: bool := false

  /** The largest value of a 32-bit `int`. */
  const INT_MAX: int := 0x7fff_ffff

  datatype Sector = Sector(
    x: int, y: int, z: int,
    distance: nat,          // truncated Euclidean distance from the origin
    code: string,
    left: Link, right: Link, parent: Link,
    color: bool)

  function KeyOf(s: Sector): Key { (s.x, s.y, s.z) }

  /** The composite order used by both trees' insertions. */
  predicate Less(a: Key, b: Key) {
    a.0 < b.0 || (a.0 == b.0 && a.1 < b.1) || (a.0 == b.0 && a.1 == b.1 && a.2 < b.2)
  }

  lemma LessIsStrictTotalOrder(a: Key, b: Key, c: Key)
    ensures !Less(a, a)
    ensures Less(a, b) ==> !Less(b, a)
    ensures Less(a, b) && Less(b, c) ==> Less(a, c)
    ensures a == b || Less(a, b) || Less(b, a)
  {
  }

  /** The constructor evaluates `x*x + y*y + z*z` in 32-bit arithmetic;
      a sum beyond INT_MAX is undefined behaviour. */
  predicate NoOverflow(x: int, y: int, z: int) {
    x * x + y * y + z * z <= INT_MAX
  }

  /** Integer square root: `static_cast<int>(sqrt(n))`. For n below 2^31 the
      rounded double square root never reaches the next integer, so the cast
      yields exactly the floor of the real root. */
  function ISqrt(n: nat): (r: nat)
    ensures r * r <= n < (r + 1) * (r + 1)
  {
    if n == 0 then 0
    else if n < 4 then 1
    else
      var s := ISqrt(n / 4);
      DoubleRoot(n, s);
      if (2 * s + 1) * (2 * s + 1) <= n then 2 * s + 1 else 2 * s
  }

  /** The step of ISqrt: a root of n / 4, doubled, is within one of a root of n. */
  lemma DoubleRoot(n: nat, s: nat)
    requires s * s <= n / 4 < (s + 1) * (s + 1)
    ensures (2 * s) * (2 * s) <= n < (2 * s + 2) * (2 * s + 2)
  {
    var q := n / 4;
    assert (2 * s) * (2 * s) == 4 * (s * s);
    assert (2 * s + 2) * (2 * s + 2) == 4 * ((s + 1) * (s + 1));
    assert (s + 1) * (s + 1) >= q + 1;
    assert n < 4 * (q + 1);
  }

  lemma ISqrtUnique(n: nat, r: nat)
    requires r * r <= n < (r + 1) * (r + 1)
    ensures r == ISqrt(n)
  {
    var q := ISqrt(n);
    SquareLess(q, r + 1);
    SquareLess(r, q + 1);
  }

  lemma MulMonotone(a: nat, b: nat)
    requires a <= b
    ensures a * a <= b * b
  {
    assert a * a <= a * b <= b * b;
  }

  lemma SquareLess(a: nat, b: nat)
    requires a * a < b * b
    ensures a < b
  {
    if a >= b { MulMonotone(b, a); }
  }

  function DigitChar(d: nat): char
    requires d < 10
  {
    ('0' as int + d) as char
  }

  predicate IsDigit(c: char) { '0' <= c <= '9' }

  function DigitValue(c: char): nat
    requires IsDigit(c)
  {
    c as int - '0' as int
  }

  /** `std::to_string` of a non-negative int. */
  function NatToDecimal(n: nat): (s: string)
    ensures |s| >= 1 && forall i :: 0 <= i < |s| ==> IsDigit(s[i])
  {
    if n < 10 then [DigitChar(n)] else NatToDecimal(n / 10) + [DigitChar(n % 10)]
  }

  /** The value of a string of decimal digits. */
  function DecimalValue(s: string): nat
    requires forall i :: 0 <= i < |s| ==> IsDigit(s[i])
  {
    if s == [] then 0 else 10 * DecimalValue(s[..|s| - 1]) + DigitValue(s[|s| - 1])
  }

  lemma {:induction false} DecimalRoundTrip(n: nat)
    ensures DecimalValue(NatToDecimal(n)) == n
  {
    var s := NatToDecimal(n);
    if n >= 10 {
      DecimalRoundTrip(n / 10);
      assert s[..|s| - 1] == NatToDecimal(n / 10);
    }
  }

  /** Axis letter: zero, positive or negative coordinate. */
  function AxisLetter(v: int, pos: char, neg: char): char {
    if v == 0 then 'S' else if v > 0 then pos else neg
  }

  function XLetter(x: int): char { AxisLetter(x, 'R', 'L') }
  function YLetter(y: int): char { AxisLetter(y, 'U', 'D') }
  function ZLetter(z: int): char { AxisLetter(z, 'F', 'B') }

  function Sign(v: int): int { if v == 0 then 0 else if v > 0 then 1 else -1 }

  function SumOfSquares(x: int, y: int, z: int): nat { x * x + y * y + z * z }

  /** The `distance` field: the Euclidean distance from the origin, truncated. */
  function Distance(x: int, y: int, z: int): nat {
    ISqrt(SumOfSquares(x, y, z))
  }

  /** The sector code: decimal truncated distance, then one letter per axis. */
  function SectorCode(x: int, y: int, z: int): string {
    CodeFrom(Distance(x, y, z), x, y, z)
  }

  function CodeFrom(distance: nat, x: int, y: int, z: int): string {
    NatToDecimal(distance) + [XLetter(x), YLetter(y), ZLetter(z)]
  }

  /** What a code says about its sector: the truncated distance and the sign of each axis. */
  datatype CodeParts = CodeParts(distance: nat, sx: int, sy: int, sz: int)

  function LetterSign(c: char, pos: char, neg: char): Option<int> {
    if c == 'S' then Some(0) else if c == pos then Some(1) else if c == neg then Some(-1) else None
  }

  /** Reads a sector code back; None if the text is not of the code's form. */
  function ParseCode(code: string): Option<CodeParts> {
    if |code| < 4 then None
    else
      var digits := code[..|code| - 3];
      if !(forall i :: 0 <= i < |digits| ==> IsDigit(digits[i])) then None
      else
        match (LetterSign(code[|code| - 3], 'R', 'L'), LetterSign(code[|code| - 2], 'U', 'D'),
               LetterSign(code[|code| - 1], 'F', 'B'))
        case (Some(sx), Some(sy), Some(sz)) => Some(CodeParts(DecimalValue(digits), sx, sy, sz))
        case _ => None
  }

  /** The code is the decimal floor of the distance followed by exactly three
      axis letters, and it can be read back. */
  lemma ParseSectorCode(x: int, y: int, z: int)
    ensures ParseCode(SectorCode(x, y, z))
         == Some(CodeParts(Distance(x, y, z), Sign(x), Sign(y), Sign(z)))
  {
    var d := Distance(x, y, z);
    var code := SectorCode(x, y, z);
    assert code[..|code| - 3] == NatToDecimal(d);
    DecimalRoundTrip(d);
  }

  /** Two sectors with the same code lie at the same truncated distance in the same octant. */
  lemma SameCodeSameOctant(a: Key, b: Key)
    requires SectorCode(a.0, a.1, a.2) == SectorCode(b.0, b.1, b.2)
    ensures Distance(a.0, a.1, a.2) == Distance(b.0, b.1, b.2)
    ensures Sign(a.0) == Sign(b.0) && Sign(a.1) == Sign(b.1) && Sign(a.2) == Sign(b.2)
  {
    ParseSectorCode(a.0, a.1, a.2);
    ParseSectorCode(b.0, b.1, b.2);
  }

  /** The code does not identify a sector: (1,2,0) and (2,1,0) share "2RUS". */
  lemma CodesCollide()
    ensures SectorCode(1, 2, 0) == SectorCode(2, 1, 0) == "2RUS"
  {
    ISqrtUnique(5, 2);
  }

  /** The digits and letters of the origin's code. */
  lemma OriginCodeFrom()
    ensures CodeFrom(0, 0, 0, 0) == "0SSS"
  {
    assert NatToDecimal(0) == "0";
  }

  /** No sector other than the origin has the code "0SSS". */
  lemma OriginOnly(x: int, y: int, z: int)
    requires SectorCode(x, y, z) == "0SSS"
    ensures x == 0 && y == 0 && z == 0
  {
    var code := SectorCode(x, y, z);
    assert code[1] == XLetter(x) && code[2] == YLetter(y) && code[3] == ZLetter(z);
  }

  /** The cast truncates: (1,1,1) is at distance sqrt 3 and gets "1RUF". */
  lemma CodeTruncates()
    ensures SectorCode(1, 1, 1) == "1RUF"
  {
    ISqrtUnique(3, 1);
  }

  /** A sector whose derived fields agree with its coordinates. */
  predicate WellFormed(s: Sector) {
    s.distance == Distance(s.x, s.y, s.z) && s.code == SectorCode(s.x, s.y, s.z)
  }

  /** `new Sector(x, y, z)`: the code is built by appending to the decimal distance. */
  method NewSector(x: int, y: int, z: int) returns (s: Sector)
    requires NoOverflow(x, y, z)
    ensures WellFormed(s) && KeyOf(s) == (x, y, z)
    ensures s.left == Null && s.right == Null && s.parent == Null && s.color == RED
  {
    var distance := ISqrt(SumOfSquares(x, y, z));
    var code := NatToDecimal(distance);
    if x == 0 { code := code + ['S']; }
    else if x > 0 { code := code + ['R']; }
    else { code := code + ['L']; }
    assert code == NatToDecimal(distance) + [XLetter(x)];
    if y == 0 { code := code + ['S']; }
    else if y > 0 { code := code + ['U']; }
    else { code := code + ['D']; }
    assert code == NatToDecimal(distance) + [XLetter(x), YLetter(y)];
    if z == 0 { code := code + ['S']; }
    else if z > 0 { code := code + ['F']; }
    else { code := code + ['B']; }
    s := Sector(x, y, z, distance, code, Null, Null, Null, RED);
  }

  /** `operator==`: coordinates only; code and distance are not compared. */
  predicate Same(a: Sector, b: Sector) {
    a.x == b.x && a.y == b.y && a.z == b.z
  }

  /** `operator!=`. */
  predicate NotSame(a: Sector, b: Sector) {
    !Same(a, b)
  }

  /** For well-formed sectors equality of coordinates fixes the code and the distance too. */
  lemma SameDeterminesDerivedFields(a: Sector, b: Sector)
    requires WellFormed(a) && WellFormed(b)
    ensures Same(a, b) <==> KeyOf(a) == KeyOf(b)
    ensures Same(a, b) ==> a.code == b.code && a.distance == b.distance
    ensures NotSame(a, b) <==> KeyOf(a) != KeyOf(b)
  {
  }

  /** The fields `operator=` copies: coordinates, distance and code. */
  function Payload(s: Sector): (int, int, int, nat, string) {
    (s.x, s.y, s.z, s.distance, s.code)
  }

  /** `operator=`: copies the data fields, keeps links and colour of the target. */
  function Assign(target: Sector, source: Sector): (r: Sector)
    ensures Same(r, source) && r.code == source.code && r.distance == source.distance
    ensures r.left == target.left && r.right == target.right && r.parent == target.parent
    ensures r.color == target.color
  {
    target.(x := source.x, y := source.y, z := source.z,
            distance := source.distance, code := source.code)
  }

  lemma AssignProperties(target: Sector, source: Sector)
    ensures Assign(source, source) == source
    ensures WellFormed(source) ==> WellFormed(Assign(target, source))
    ensures Assign(Assign(target, source), source) == Assign(target, source)
    ensures Assign(target, Assign(target, source)) == Assign(target, source)
  {
  }
}
