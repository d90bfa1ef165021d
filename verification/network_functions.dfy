/** The small network helpers of util/NetworkFunctions.py: rounding to
    hundreds, zero-padding clock times, stripping the phase suffix from a
    bus name, and the linear searches over loads and nodes. */
module NetworkFunctions {
  import opened Wrappers
  import Strings

  /** The fields of a node the helpers read; coordinates, voltage and the
      load count are not consulted here. */
  datatype Node = Node(name: string, num: int, elevation: Option<real>)

  /** A load, as far as the helpers see it: the bus it hangs off. */
  datatype Load = Load(bus: string)

  // ---------------------------------------------------------------------
  // roundup
  // ---------------------------------------------------------------------

  /** `math.ceil` on a real. */
  function Ceil(y: real): (c: int)
    ensures y <= c as real < y + 1.0
  {
    -((-y).Floor)
  }

  /** `roundup(x)`: `x` rounded up to a multiple of 100. */
  function Roundup(x: real): (r: int)
    ensures r % 100 == 0
    ensures (r - 100) as real < x <= r as real
  {
    var c := Ceil(x / 100.0);
    assert (c * 100) as real == c as real * 100.0;
    c * 100
  }

  /** Two multiples of 100 whose windows of width 100 both hold `x` are equal. */
  lemma MultiplesInWindow(x: real, m: int, n: int)
    requires m % 100 == 0 && n % 100 == 0
    requires (m - 100) as real < x <= m as real
    requires (n - 100) as real < x <= n as real
    ensures m == n
  {
    var a, b := m / 100, n / 100;
    assert m == 100 * a && n == 100 * b;
    assert -100 < m - n < 100;
    assert -1 < a - b < 1;
  }

  /** The window characterises the result: any multiple of 100 at most 100
      above `x` and not below it is `Roundup(x)`. */
  lemma RoundupUnique(x: real, m: int)
    requires m % 100 == 0 && (m - 100) as real < x <= m as real
    ensures Roundup(x) == m
  {
    MultiplesInWindow(x, Roundup(x), m);
  }

  /** `Roundup(x)` is the least multiple of 100 that is not below `x`. */
  lemma RoundupLeast(x: real, m: int)
    requires m % 100 == 0 && x <= m as real
    ensures Roundup(x) <= m
  {
    var r := Roundup(x);
    assert (r / 100) * 100 == r && (m / 100) * 100 == m;
    assert (r / 100 - 1) * 100 < m;
  }

  /** Multiples of 100 are left as they are. */
  lemma RoundupOfMultiple(n: int)
    ensures Roundup((100 * n) as real) == 100 * n
  {
    RoundupUnique((100 * n) as real, 100 * n);
  }

  /** Rounding up twice is rounding up once. */
  lemma RoundupIdempotent(x: real)
    ensures Roundup(Roundup(x) as real) == Roundup(x)
  {
    RoundupUnique(Roundup(x) as real, Roundup(x));
  }

  /** Rounding up preserves order. */
  lemma RoundupMonotone(x: real, y: real)
    requires x <= y
    ensures Roundup(x) <= Roundup(y)
  {
    RoundupLeast(x, Roundup(y));
  }

  // ---------------------------------------------------------------------
  // parseTime
  // ---------------------------------------------------------------------

  /** Python's `c * n` on a one-character string: empty when `n <= 0`. */
  function Repeat(c: char, n: int): (r: string)
    ensures |r| == if n <= 0 then 0 else n
    ensures forall k :: 0 <= k < |r| ==> r[k] == c
  {
    if n <= 0 then "" else seq(n, _ => c)
  }

  /** `parseTime(time)` on the text `str(time)`: a time written without
      its leading zeros is padded on the left to four characters. */
  function ParseTime(s: string): (r: string)
    ensures |r| == if |s| < 4 then 4 else |s|
    ensures r[|r| - |s|..] == s
    ensures forall k :: 0 <= k < |r| - |s| ==> r[k] == '0'
  {
    if |s| != 4 then Repeat('0', 4 - |s|) + s else s
  }

  /** A text of four or more characters is returned unchanged. */
  lemma ParseTimeKeepsLong(s: string)
    requires |s| >= 4
    ensures ParseTime(s) == s
  {
    assert Repeat('0', 4 - |s|) == "";
  }

  /** Padding twice is padding once. */
  lemma ParseTimeIdempotent(s: string)
    ensures ParseTime(ParseTime(s)) == ParseTime(s)
  {
    ParseTimeKeepsLong(ParseTime(s));
  }

  /** The decimal digit for `d`. */
  function DigitChar(d: nat): char
    requires d < 10
  {
    "0123456789"[d]
  }

  /** `str(n)` for a non-negative integer. */
  function Digits(n: nat): (s: string)
    ensures |s| >= 1
    decreases n
  {
    if n < 10 then [DigitChar(n)] else Digits(n / 10) + [DigitChar(n % 10)]
  }

  predicate IsDigit(c: char)
  {
    '0' <= c <= '9'
  }

  /** The number a string of decimal digits stands for, leading zeros
      allowed. */
  function Value(s: string): nat
    requires forall k :: 0 <= k < |s| ==> IsDigit(s[k])
  {
    if |s| == 0 then 0
    else
      var d := s[|s| - 1];
      assert IsDigit(d);
      10 * Value(s[..|s| - 1]) + (d as int - '0' as int)
  }

  /** Reading back `str(n)` gives `n`. */
  lemma {:induction false} ValueOfDigits(n: nat)
    ensures forall k :: 0 <= k < |Digits(n)| ==> IsDigit(Digits(n)[k])
    ensures Value(Digits(n)) == n
    decreases n
  {
    if n >= 10 {
      ValueOfDigits(n / 10);
      var s := Digits(n);
      assert s[..|s| - 1] == Digits(n / 10);
      assert s[|s| - 1] == DigitChar(n % 10);
    } else {
      assert Digits(n)[..0] == "";
    }
  }

  /** `str(n)` has at most `k` characters when `n < 10^k`. */
  lemma {:induction false} DigitsShort(n: nat, k: nat, p: nat)
    requires k >= 1 && p == Pow10(k) && n < p
    ensures |Digits(n)| <= k
    decreases n
  {
    if n >= 10 {
      assert Pow10(1) == 10;
      assert k >= 2;
      assert p == 10 * Pow10(k - 1);
      DigitsShort(n / 10, k - 1, Pow10(k - 1));
    }
  }

  function Pow10(k: nat): nat
  {
    if k == 0 then 1 else 10 * Pow10(k - 1)
  }

  /** Leading zeros do not change the value of a digit string. */
  lemma {:induction false} LeadingZeros(z: nat, s: string)
    requires forall k :: 0 <= k < |s| ==> IsDigit(s[k])
    ensures forall k :: 0 <= k < |Repeat('0', z) + s| ==> IsDigit((Repeat('0', z) + s)[k])
    ensures Value(Repeat('0', z) + s) == Value(s)
    decreases |s|, z
  {
    var t := Repeat('0', z) + s;
    if |s| > 0 {
      LeadingZeros(z, s[..|s| - 1]);
      assert t[..|t| - 1] == Repeat('0', z) + s[..|s| - 1];
      assert t[|t| - 1] == s[|s| - 1];
    } else if z > 0 {
      LeadingZeros(z - 1, s);
      assert t[..|t| - 1] == Repeat('0', z - 1) + s;
      assert t[|t| - 1] == '0';
    }
  }

  /** A clock time `HHMM` given as the integer `n < 10000` becomes four
      digits that read back as `n`. */
  lemma ParseTimeOfInteger(n: nat)
    requires n < 10000
    ensures |ParseTime(Digits(n))| == 4
    ensures forall k :: 0 <= k < 4 ==> IsDigit(ParseTime(Digits(n))[k])
    ensures Value(ParseTime(Digits(n))) == n
  {
    var s := Digits(n);
    DigitsShort(n, 4, 10000);
    ValueOfDigits(n);
    if |s| == 4 {
      ParseTimeKeepsLong(s);
    } else {
      LeadingZeros(4 - |s|, s);
    }
  }

  // ---------------------------------------------------------------------
  // nodeNameSplit
  // ---------------------------------------------------------------------

  /** `nodeNameSplit(text)`: the bus name without its phase suffix, that
      is, the text before the first '.'. */
  function NodeNameSplit(text: string): (r: string)
    ensures r <= text
    ensures '.' !in r
    ensures |r| < |text| ==> text[|r|] == '.'
  {
    Strings.SplitFirst(text, '.')
  }

  /** Stripping the suffix twice is stripping it once. */
  lemma NodeNameSplitIdempotent(text: string)
    ensures NodeNameSplit(NodeNameSplit(text)) == NodeNameSplit(text)
  {
    Strings.SplitFirstIdempotent(text, '.');
  }

  /** A plain name with any phase suffix attached splits back to the name. */
  lemma {:induction false} NodeNameSplitOfSuffixed(name: string, suffix: string)
    requires '.' !in name
    ensures NodeNameSplit(name + "." + suffix) == name
  {
    var t := name + "." + suffix;
    if |name| == 0 {
      assert t[0] == '.';
    } else {
      assert t[0] == name[0] && name[0] != '.';
      assert t[1..] == name[1..] + "." + suffix;
      assert '.' !in name[1..] by {
        assert forall k :: 0 <= k < |name[1..]| ==> name[1..][k] == name[k + 1];
      }
      NodeNameSplitOfSuffixed(name[1..], suffix);
      assert name == [name[0]] + name[1..];
    }
  }

  // ---------------------------------------------------------------------
  // findNumLoads
  // ---------------------------------------------------------------------

  /** The buses of a list of loads, in order. */
  function BusesOf(loads: seq<Load>): (buses: seq<string>)
    ensures |buses| == |loads|
    ensures forall i :: 0 <= i < |loads| ==> buses[i] == loads[i].bus
  {
    seq(|loads|, i requires 0 <= i < |loads| => loads[i].bus)
  }

  /** `findNumLoads(bus, loads)`: how often `bus` occurs among the loads'
      buses. */
  method FindNumLoads(bus: string, loads: seq<Load>) returns (num: nat)
    ensures num == multiset(BusesOf(loads))[bus]
    ensures num <= |loads|
    ensures num == 0 <==> forall i :: 0 <= i < |loads| ==> loads[i].bus != bus
  {
    num := 0;
    var i := 0;
    while i < |loads|
      invariant 0 <= i <= |loads|
      invariant num == multiset(BusesOf(loads[..i]))[bus]
      invariant num <= i
      invariant num == 0 <==> forall j :: 0 <= j < i ==> loads[j].bus != bus
    {
      assert BusesOf(loads[..i + 1]) == BusesOf(loads[..i]) + [loads[i].bus];
      if bus == loads[i].bus {
        num := num + 1;
      }
      i := i + 1;
    }
    assert loads[..i] == loads;
  }

  // ---------------------------------------------------------------------
  // find_node_by_name and findNodeNum
  // ---------------------------------------------------------------------

  /** `i` is the first position holding `target`. */
  predicate IsFirst(names: seq<string>, target: string, i: int)
  {
    && 0 <= i < |names|
    && names[i] == target
    && forall j :: 0 <= j < i ==> names[j] != target
  }

  /** `find_node_by_name(connections, target)`, given the elements' names:
      the first index whose name equals `target`, or `None`. */
  method FindNodeByName(names: seq<string>, target: string) returns (r: Option<nat>)
    ensures r.Some? ==> IsFirst(names, target, r.value)
    ensures r.None? <==> target !in names
  {
    var i := 0;
    while i < |names|
      invariant 0 <= i <= |names|
      invariant target !in names[..i]
    {
      if names[i] == target {
        assert forall j :: 0 <= j < i ==> names[j] == names[..i][j];
        return Some(i);
      }
      assert names[..i + 1] == names[..i] + [names[i]];
      i := i + 1;
    }
    assert names[..i] == names;
    return None;
  }

  /** The contract of `FindNodeByName` pins the index down. */
  lemma FirstIsUnique(names: seq<string>, target: string, i: int, j: int)
    requires IsFirst(names, target, i) && IsFirst(names, target, j)
    ensures i == j
  {
  }

  /** The names of a list of nodes. */
  function NamesOf(nodes: seq<Node>): (names: seq<string>)
    ensures |names| == |nodes|
    ensures forall i :: 0 <= i < |nodes| ==> names[i] == nodes[i].name
  {
    seq(|nodes|, i requires 0 <= i < |nodes| => nodes[i].name)
  }

  /** The name `findNodeNum` searches for: the bus with its phase suffix
      removed when it has one. */
  function SearchKey(bus: string): (key: string)
    ensures '.' !in key
    ensures key <= bus
  {
    if '.' in bus then NodeNameSplit(bus) else bus
  }

  /** The guard on '.' changes nothing: the key is always the text before
      the first '.'. */
  lemma SearchKeyIsSplit(bus: string)
    ensures SearchKey(bus) == NodeNameSplit(bus)
  {
    if '.' !in bus {
      Strings.NoSeparatorUnchanged(bus, '.');
    }
  }

  /** `findNodeNum(bus, nodes)`: the `num` of the first node named like
      `bus` without its phase suffix, or `None`. */
  method FindNodeNum(bus: string, nodes: seq<Node>) returns (r: Option<int>)
    ensures r.None? <==> SearchKey(bus) !in NamesOf(nodes)
    ensures r.Some? ==> exists i :: IsFirst(NamesOf(nodes), SearchKey(bus), i) && nodes[i].num == r.value
  {
    var key := SearchKey(bus);
    var i := 0;
    while i < |nodes|
      invariant 0 <= i <= |nodes|
      invariant forall j :: 0 <= j < i ==> nodes[j].name != key
    {
      if key == nodes[i].name {
        assert IsFirst(NamesOf(nodes), key, i);
        return Some(nodes[i].num);
      }
      i := i + 1;
    }
    return None;
  }
}
