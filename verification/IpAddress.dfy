/**
 * The recognisers of IPv4 and IPv6 addresses, and the grammar of section 3.2.2
 * of RFC 3986 that they accept.
 */
module IpAddress {
  import opened Common

  // ------------------------------------------------------------------------
  // Splitting and joining
  // ------------------------------------------------------------------------

  /** s.split(sep). */
  function Split(s: string, sep: char): (parts: seq<string>)
    ensures parts != []
  {
    if s == "" then [""]
    else if s[0] == sep then [""] + Split(s[1..], sep)
    else
      var rest := Split(s[1..], sep);
      [[s[0]] + rest[0]] + rest[1..]
  }

  function Join(parts: seq<string>, sep: char): string {
    if parts == [] then ""
    else if |parts| == 1 then parts[0]
    else parts[0] + [sep] + Join(parts[1..], sep)
  }

  ghost predicate Without(parts: seq<string>, sep: char) {
    forall i :: 0 <= i < |parts| ==> sep !in parts[i]
  }

  lemma {:induction false} SplitNone(s: string, sep: char)
    requires sep !in s
    ensures Split(s, sep) == [s]
  {
    if s != "" {
      SplitNone(s[1..], sep);
      assert s == [s[0]] + s[1..];
    }
  }

  lemma SplitCons(c: char, t: string, sep: char)
    ensures Split([c] + t, sep) == if c == sep then [""] + Split(t, sep) else ConsFirst(c, Split(t, sep))
  {
    assert ([c] + t)[0] == c && ([c] + t)[1..] == t;
  }

  /** A character put before the first part. */
  function ConsFirst(c: char, parts: seq<string>): seq<string>
    requires parts != []
  {
    [[c] + parts[0]] + parts[1..]
  }

  lemma ConsFirstAppend(c: char, first: seq<string>, second: seq<string>)
    requires first != []
    ensures ConsFirst(c, first + second) == ConsFirst(c, first) + second
  {
    assert (first + second)[1..] == first[1..] + second;
  }

  lemma {:induction false} SplitAppend(a: string, b: string, sep: char)
    ensures Split(a + [sep] + b, sep) == Split(a, sep) + Split(b, sep)
  {
    if a == "" {
      assert a + [sep] + b == [sep] + b;
      SplitCons(sep, b, sep);
    } else {
      var c, t := a[0], a[1..];
      assert a == [c] + t && a + [sep] + b == [c] + (t + [sep] + b);
      SplitAppend(t, b, sep);
      SplitRest(c, t, b, sep);
    }
  }

  lemma SplitRest(c: char, t: string, b: string, sep: char)
    requires Split(t + [sep] + b, sep) == Split(t, sep) + Split(b, sep)
    ensures Split([c] + (t + [sep] + b), sep) == Split([c] + t, sep) + Split(b, sep)
  {
    hide Split;
    SplitCons(c, t + [sep] + b, sep);
    SplitCons(c, t, sep);
    if c != sep { ConsFirstAppend(c, Split(t, sep), Split(b, sep)); }
  }

  lemma {:induction false} SplitJoin(parts: seq<string>, sep: char)
    requires parts != [] && Without(parts, sep)
    ensures Split(Join(parts, sep), sep) == parts
  {
    SplitNone(parts[0], sep);
    if |parts| > 1 {
      SplitJoin(parts[1..], sep);
      SplitAppend(parts[0], Join(parts[1..], sep), sep);
    }
  }

  lemma {:induction false} JoinSplit(s: string, sep: char)
    ensures Join(Split(s, sep), sep) == s && Without(Split(s, sep), sep)
  {
    if s != "" {
      var rest := Split(s[1..], sep);
      JoinSplit(s[1..], sep);
      assert s == [s[0]] + s[1..];
      if s[0] == sep {
        assert ([""] + rest)[1..] == rest;
      } else {
        assert ([[s[0]] + rest[0]] + rest[1..])[1..] == rest[1..];
      }
    }
  }

  lemma {:induction false} JoinAppend(parts: seq<string>, last: string, sep: char)
    requires parts != []
    ensures Join(parts + [last], sep) == Join(parts, sep) + [sep] + last
  {
    if |parts| == 1 {
      assert (parts + [last])[1..] == [last];
    } else {
      assert (parts + [last])[1..] == parts[1..] + [last];
      JoinAppend(parts[1..], last, sep);
    }
  }

  // ------------------------------------------------------------------------
  // IPv4
  // ------------------------------------------------------------------------

  predicate Digits(s: string) {
    forall i :: 0 <= i < |s| ==> IsDigit(s[i])
  }

  /** Number(s). */
  function Number(s: string): int
    requires Digits(s)
  {
    if s == "" then 0 else Number(s[..|s| - 1]) * 10 + Digit(s[|s| - 1])
  }

  /** The test of one octet that the pattern matched. */
  predicate OctetOk(s: string) {
    && 1 <= |s| <= 3 && Digits(s)
    && !(|s| > 1 && s[0] == '0')
    && 0 <= Number(s) <= 255
  }

  /** isValidIpv4. */
  predicate IsValidIpv4(s: string) {
    var octets := Split(s, '.');
    |octets| == 4 && forall i :: 0 <= i < 4 ==> OctetOk(octets[i])
  }

  /** dec-octet. */
  predicate DecOctet(s: string) {
    || (|s| == 1 && IsDigit(s[0]))
    || (|s| == 2 && '1' <= s[0] <= '9' && IsDigit(s[1]))
    || (|s| == 3 && s[0] == '1' && IsDigit(s[1]) && IsDigit(s[2]))
    || (|s| == 3 && s[0] == '2' && '0' <= s[1] <= '4' && IsDigit(s[2]))
    || (|s| == 3 && s[0] == '2' && s[1] == '5' && '0' <= s[2] <= '5')
  }

  /** IPv4address. */
  ghost predicate IPv4Address(s: string) {
    exists a, b, c, d ::
      DecOctet(a) && DecOctet(b) && DecOctet(c) && DecOctet(d) && s == a + "." + b + "." + c + "." + d
  }

  lemma OctetIsDecOctet(s: string)
    ensures OctetOk(s) <==> DecOctet(s)
  {
    if 1 <= |s| <= 3 && Digits(s) {
      assert |s| >= 2 ==> s[..|s| - 1][..|s| - 2] == s[..|s| - 2];
      if |s| == 1 {
        assert Number(s) == Digit(s[0]);
      } else if |s| == 2 {
        assert Number(s[..1]) == Digit(s[0]);
        assert Number(s) == Digit(s[0]) * 10 + Digit(s[1]);
      } else {
        assert s[..2][..1] == s[..1] && Number(s[..1]) == Digit(s[0]);
        assert Number(s[..2]) == Digit(s[0]) * 10 + Digit(s[1]);
        assert Number(s) == Digit(s[0]) * 100 + Digit(s[1]) * 10 + Digit(s[2]);
      }
    }
  }

  lemma JoinFour(p: seq<string>)
    requires |p| == 4
    ensures Join(p, '.') == p[0] + "." + p[1] + "." + p[2] + "." + p[3]
  {
    assert Join(p[3..], '.') == p[3];
    assert p[2..][1..] == p[3..] && Join(p[2..], '.') == p[2] + "." + p[3];
    assert p[1..][1..] == p[2..] && Join(p[1..], '.') == p[1] + "." + (p[2] + "." + p[3]);
    assert Join(p, '.') == p[0] + "." + (p[1] + "." + (p[2] + "." + p[3]));
  }

  /** The dotted-quad recogniser accepts exactly the grammar. */
  lemma Ipv4Exact(s: string)
    ensures IsValidIpv4(s) <==> IPv4Address(s)
  {
    if IsValidIpv4(s) {
      var p := Split(s, '.');
      JoinSplit(s, '.');
      JoinFour(p);
      forall i | 0 <= i < 4 ensures DecOctet(p[i]) { OctetIsDecOctet(p[i]); }
    }
    if a, b, c, d :| DecOctet(a) && DecOctet(b) && DecOctet(c) && DecOctet(d) && s == a + "." + b + "." + c + "." + d {
      var p := [a, b, c, d];
      JoinFour(p);
      forall i | 0 <= i < 4 ensures OctetOk(p[i]) && '.' !in p[i] { OctetIsDecOctet(p[i]); }
      SplitJoin(p, '.');
    }
  }

  lemma Ipv4Shape(s: string)
    requires IsValidIpv4(s)
    ensures 7 <= |s| <= 15 && '.' in s && forall c :: c in s ==> IsDigit(c) || c == '.'
  {
    var p := Split(s, '.');
    JoinSplit(s, '.');
    JoinFour(p);
    assert OctetOk(p[0]) && OctetOk(p[1]) && OctetOk(p[2]) && OctetOk(p[3]);
  }

  // ------------------------------------------------------------------------
  // IPv6: the recogniser
  // ------------------------------------------------------------------------

  predicate IsHex(c: char) {
    IsDigit(c) || 'a' <= c <= 'f' || 'A' <= c <= 'F'
  }

  /** The hexadecimal digits, in either case. */
  lemma HexDigits(c: char)
    ensures IsHex(c) <==> IsDigit(c) || c in "abcdef" || c in "ABCDEF"
  {
    if 'a' <= c <= 'f' { assert "abcdef"[c as int - 'a' as int] == c; }
    if 'A' <= c <= 'F' { assert "ABCDEF"[c as int - 'A' as int] == c; }
  }

  predicate AddressChars(s: string) {
    forall i :: 0 <= i < |s| ==> IsHex(s[i]) || s[i] == ':' || s[i] == '.'
  }

  predicate StartsDouble(s: string) {
    |s| >= 2 && s[0] == ':' && s[1] == ':'
  }

  predicate HasTriple(s: string) {
    exists i :: 0 <= i < |s| - 2 && s[i] == ':' && s[i + 1] == ':' && s[i + 2] == ':'
  }

  /** s.split("::").length - 1: occurrences from the left that do not overlap. */
  function Elisions(s: string): nat {
    if |s| < 2 then 0
    else if StartsDouble(s) then 1 + Elisions(s[2..])
    else Elisions(s[1..])
  }

  /** s.lastIndexOf(":"). */
  function LastColon(s: string): (i: int)
    ensures -1 <= i < |s|
  {
    if s == "" then -1
    else if s[|s| - 1] == ':' then |s| - 1
    else LastColon(s[..|s| - 1])
  }

  predicate H16(g: string) {
    1 <= |g| <= 4 && forall i :: 0 <= i < |g| ==> IsHex(g[i])
  }

  function NonEmpty(groups: seq<string>): seq<string> {
    if groups == [] then []
    else (if groups[0] == "" then [] else [groups[0]]) + NonEmpty(groups[1..])
  }

  /** What follows the last colon, if it has a dot. */
  function QuadOf(s: string): Option<string> {
    var i := LastColon(s);
    if i != -1 && '.' in s[i + 1..] then Some(s[i + 1..]) else None
  }

  /** The non-empty groups of what is left. */
  function Explicit(s: string): seq<string> {
    NonEmpty(Split(if QuadOf(s).Some? then s[..LastColon(s)] else s, ':'))
  }

  /** isValidIpv6. */
  predicate IsValidIpv6(s: string) {
    if |s| > 45 || s == "" || !AddressChars(s) then false
    else if HasTriple(s) then false
    else if s[0] == ':' && !StartsDouble(s) then false
    else if s[|s| - 1] == ':' && !(|s| >= 2 && s[|s| - 2] == ':') then false
    else if Elisions(s) > 1 then false
    else if QuadOf(s).Some? && !IsValidIpv4(QuadOf(s).value) then false
    else if exists i :: 0 <= i < |Explicit(s)| && !H16(Explicit(s)[i]) then false
    else
      var total := |Explicit(s)| + if QuadOf(s).Some? then 2 else 0;
      if Elisions(s) == 1 then total <= 7 else total == 8
  }

  // ------------------------------------------------------------------------
  // IPv6: the grammar
  // ------------------------------------------------------------------------

  ghost predicate AllH16(groups: seq<string>) {
    forall i :: 0 <= i < |groups| ==> H16(groups[i])
  }

  /** n( h16 ":" ). */
  function WithColons(groups: seq<string>): string {
    if groups == [] then "" else groups[0] + ":" + WithColons(groups[1..])
  }

  /** ls32. */
  ghost predicate Ls32(s: string) {
    IPv4Address(s) || exists a, b :: H16(a) && H16(b) && s == a + ":" + b
  }

  /** [ *max( h16 ":" ) h16 ]. */
  ghost predicate OptionalGroups(s: string, max: int) {
    s == "" || exists groups, g :: AllH16(groups) && |groups| <= max && H16(g) && s == WithColons(groups) + g
  }

  /** Optional groups, an elision, and exactly `count` groups before an ls32. */
  ghost predicate ElidedLs32(s: string, max: int, count: nat) {
    exists left, groups, tail ::
      && OptionalGroups(left, max) && AllH16(groups) && |groups| == count && Ls32(tail)
      && s == left + "::" + WithColons(groups) + tail
  }

  /** The nine alternatives of IPv6address. */
  ghost predicate Alternative(n: nat, s: string) {
    match n
    case 1 => exists groups, tail :: AllH16(groups) && |groups| == 6 && Ls32(tail) && s == WithColons(groups) + tail
    case 2 => ElidedLs32(s, -1, 5)
    case 3 => ElidedLs32(s, 0, 4)
    case 4 => ElidedLs32(s, 1, 3)
    case 5 => ElidedLs32(s, 2, 2)
    case 6 => ElidedLs32(s, 3, 1)
    case 7 => ElidedLs32(s, 4, 0)
    case 8 => exists left, g :: OptionalGroups(left, 5) && H16(g) && s == left + "::" + g
    case 9 => exists left :: OptionalGroups(left, 6) && s == left + "::"
    case _ => false
  }

  ghost predicate IPv6Address(s: string) {
    exists n :: 1 <= n <= 9 && Alternative(n, s)
  }

  // ------------------------------------------------------------------------
  // A normal form between the two
  // ------------------------------------------------------------------------

  /** Groups before the elision, if there is one, groups after it, and a dotted quad at the end, if there is one. */
  datatype Address = Address(elided: bool, left: seq<string>, right: seq<string>, quad: Option<string>)

  /** What stands after the elision: the groups and the quad. */
  function TailOf(right: seq<string>, quad: Option<string>): seq<string> {
    right + match quad case None => [] case Some(q) => [q]
  }

  function Tail(a: Address): seq<string> {
    TailOf(a.right, a.quad)
  }

  /** `text` is a tail worth `total` groups, a quad counting for two. */
  ghost predicate IsTail(right: seq<string>, quad: Option<string>, total: nat, text: string) {
    && AllH16(right) && (quad.Some? ==> IsValidIpv4(quad.value))
    && |right| + (if quad.Some? then 2 else 0) == total
    && Join(TailOf(right, quad), ':') == text
  }

  function Render(a: Address): string {
    if a.elided then Join(a.left, ':') + "::" + Join(Tail(a), ':') else Join(Tail(a), ':')
  }

  function Total(a: Address): nat {
    |a.left| + |a.right| + if a.quad.Some? then 2 else 0
  }

  ghost predicate WellFormed(a: Address) {
    && AllH16(a.left) && AllH16(a.right) && (a.quad.Some? ==> IsValidIpv4(a.quad.value))
    && (if a.elided then Total(a) <= 7 else a.left == [] && Total(a) == 8)
  }

  // ------------------------------------------------------------------------
  // The grammar is the normal form
  // ------------------------------------------------------------------------

  ghost predicate Normal(s: string) {
    exists a :: WellFormed(a) && Render(a) == s
  }

  lemma {:induction false} WithColonsJoin(groups: seq<string>, last: string)
    ensures WithColons(groups) + last == Join(groups + [last], ':')
  {
    if groups != [] {
      WithColonsJoin(groups[1..], last);
      assert (groups + [last])[1..] == groups[1..] + [last];
      assert WithColons(groups) + last == groups[0] + ":" + (WithColons(groups[1..]) + last);
    }
  }

  lemma WithColonsAppend(groups: seq<string>, a: string, b: string)
    ensures WithColons(groups) + (a + ":" + b) == Join(groups + [a, b], ':')
  {
    WithColonsJoin(groups, a + ":" + b);
    if groups == [] {
      assert groups + [a, b] == [a, b] && [a, b][1..] == [b];
    } else {
      JoinTwo(groups, a, b);
    }
  }

  lemma JoinTwo(groups: seq<string>, a: string, b: string)
    requires groups != []
    ensures Join(groups + [a + ":" + b], ':') == Join(groups + [a, b], ':')
  {
    JoinAppend(groups, a + ":" + b, ':');
    JoinAppend(groups, a, ':');
    JoinAppend(groups + [a], b, ':');
    assert groups + [a] + [b] == groups + [a, b];
  }

  lemma OptionalIsJoin(s: string, max: int)
    ensures OptionalGroups(s, max) && max >= -1 ==>
      exists groups :: AllH16(groups) && |groups| <= max + 1 && s == Join(groups, ':')
  {
    if OptionalGroups(s, max) && max >= -1 {
      if s == "" {
        assert AllH16([]) && Join([], ':') == s;
      } else {
        var groups, g :| AllH16(groups) && |groups| <= max && H16(g) && s == WithColons(groups) + g;
        WithColonsJoin(groups, g);
        assert AllH16(groups + [g]);
      }
    }
  }

  lemma JoinShort(g: string)
    ensures Join([], ':') == "" && Join([g], ':') == g
  {
  }

  lemma JoinIsOptional(groups: seq<string>, max: int)
    requires AllH16(groups) && |groups| <= max + 1
    ensures OptionalGroups(Join(groups, ':'), max)
  {
    hide H16, WithColons, Join;
    if groups == [] {
      JoinShort("");
    } else {
      LastIsOptional(groups[..|groups| - 1], groups[|groups| - 1], max);
      assert groups == groups[..|groups| - 1] + [groups[|groups| - 1]];
    }
  }

  lemma LastIsOptional(front: seq<string>, last: string, max: int)
    requires AllH16(front) && H16(last) && |front| <= max
    ensures OptionalGroups(Join(front + [last], ':'), max)
  {
    hide H16, WithColons, Join;
    WithColonsJoin(front, last);
  }

  /** Groups followed by an ls32, as a tail of the normal form. */
  lemma Ls32Tail(groups: seq<string>, tail: string) returns (right: seq<string>, quad: Option<string>)
    requires AllH16(groups) && Ls32(tail)
    ensures IsTail(right, quad, |groups| + 2, WithColons(groups) + tail)
  {
    hide Join, WithColons, H16, IsValidIpv4, IPv4Address;
    if IPv4Address(tail) {
      Ipv4Exact(tail);
      WithColonsJoin(groups, tail);
      right, quad := groups, Some(tail);
      assert TailOf(right, quad) == groups + [tail];
    } else {
      var a, b :| H16(a) && H16(b) && tail == a + ":" + b;
      WithColonsAppend(groups, a, b);
      right, quad := groups + [a, b], None;
      assert TailOf(right, quad) == right;
    }
  }

  lemma ElidedIsNormal(s: string, max: int, count: nat)
    requires ElidedLs32(s, max, count) && -1 <= max && max + count <= 4
    ensures Normal(s)
  {
    hide Join, WithColons, H16, IsValidIpv4, Ls32, OptionalGroups, TailOf;
    var left, groups, tail :| OptionalGroups(left, max) && AllH16(groups) && |groups| == count && Ls32(tail)
      && s == left + "::" + WithColons(groups) + tail;
    OptionalIsJoin(left, max);
    var l :| AllH16(l) && |l| <= max + 1 && left == Join(l, ':');
    var right, quad := Ls32Tail(groups, tail);
    var a := Address(true, l, right, quad);
    assert s == left + "::" + (WithColons(groups) + tail);
    assert WellFormed(a) && Render(a) == s;
  }

  lemma GrammarIsNormal(s: string, n: nat)
    requires 1 <= n <= 9 && Alternative(n, s)
    ensures Normal(s)
  {
    hide WithColons, H16, IsValidIpv4, Ls32, OptionalGroups, ElidedLs32;
    if n == 1 {
      var groups, tail :| AllH16(groups) && |groups| == 6 && Ls32(tail) && s == WithColons(groups) + tail;
      var right, quad := Ls32Tail(groups, tail);
      assert WellFormed(Address(false, [], right, quad));
    } else if n <= 7 {
      ElidedIsNormal(s, n - 3, 7 - n);
    } else if n == 8 {
      var left, g :| OptionalGroups(left, 5) && H16(g) && s == left + "::" + g;
      OptionalIsJoin(left, 5);
      var l :| AllH16(l) && |l| <= 6 && left == Join(l, ':');
      var a := Address(true, l, [g], None);
      assert Tail(a) == [g] && WellFormed(a) && Render(a) == s;
    } else {
      var left :| OptionalGroups(left, 6) && s == left + "::";
      OptionalIsJoin(left, 6);
      var l :| AllH16(l) && |l| <= 7 && left == Join(l, ':');
      var a := Address(true, l, [], None);
      assert Tail(a) == [] && WellFormed(a) && Render(a) == s;
    }
  }

  /** A tail of at least two groups' worth is groups and an ls32. */
  lemma TailIsLs32(right: seq<string>, quad: Option<string>) returns (groups: seq<string>, tail: string)
    requires AllH16(right) && (quad.Some? ==> IsValidIpv4(quad.value)) && (quad.None? ==> |right| >= 2)
    ensures AllH16(groups) && Ls32(tail) && |groups| + 2 == |right| + if quad.Some? then 2 else 0
    ensures Join(TailOf(right, quad), ':') == WithColons(groups) + tail
  {
    hide Join, WithColons, H16, IsValidIpv4, IPv4Address;
    if quad.Some? {
      groups, tail := right, quad.value;
      Ipv4Exact(tail);
      WithColonsJoin(groups, tail);
      assert TailOf(right, quad) == groups + [tail];
    } else {
      var k := |right| - 2;
      groups, tail := right[..k], right[k] + ":" + right[k + 1];
      WithColonsAppend(groups, right[k], right[k + 1]);
      assert right == groups + [right[k], right[k + 1]];
      assert TailOf(right, quad) == right;
      assert H16(right[k]) && H16(right[k + 1]);
    }
  }

  lemma NormalIsGrammar(a: Address)
    requires WellFormed(a)
    ensures IPv6Address(Render(a))
  {
    hide Join, WithColons, H16, IsValidIpv4, Ls32, OptionalGroups;
    var s := Render(a);
    if a.quad.None? && |a.right| < 2 {
      assert Tail(a) == a.right;
      JoinShort(if a.right == [] then "" else a.right[0]);
      if a.right == [] {
        JoinIsOptional(a.left, 6);
        assert s == Join(a.left, ':') + "::";
        assert Alternative(9, s);
      } else {
        JoinIsOptional(a.left, 5);
        assert a.right == [a.right[0]] && H16(a.right[0]);
        assert Alternative(8, s);
      }
    } else {
      var groups, tail := TailIsLs32(a.right, a.quad);
      if a.elided {
        var left := Join(a.left, ':');
        JoinIsOptional(a.left, 4 - |groups|);
        assert s == left + "::" + WithColons(groups) + tail;
        assert ElidedLs32(s, 4 - |groups|, |groups|);
        var n := 7 - |groups|;
        assert Alternative(n, s);
      } else {
        assert Alternative(1, s);
      }
    }
  }

  lemma GrammarExact(s: string)
    ensures IPv6Address(s) <==> Normal(s)
  {
    if IPv6Address(s) {
      var n :| 1 <= n <= 9 && Alternative(n, s);
      GrammarIsNormal(s, n);
    }
    if a :| WellFormed(a) && Render(a) == s { NormalIsGrammar(a); }
  }
}
