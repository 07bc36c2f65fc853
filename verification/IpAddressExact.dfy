/** The IPv6 recogniser accepts exactly the grammar. */
module IpAddressExact {
  import opened Common
  import opened IpAddress

  predicate Doubled(s: string) {
    exists i :: 0 <= i < |s| - 1 && s[i] == ':' && s[i + 1] == ':'
  }

  /** Groups between single colons: nothing at either end, nothing elided. */
  predicate Clean(s: string) {
    !Doubled(s) && (s != "" ==> s[0] != ':' && s[|s| - 1] != ':')
  }

  ghost predicate Solid(groups: seq<string>) {
    forall i :: 0 <= i < |groups| ==> groups[i] != "" && ':' !in groups[i]
  }

  // ------------------------------------------------------------------------
  // Groups and clean strings
  // ------------------------------------------------------------------------

  lemma ConsClean(g: string, rest: string)
    requires g != "" && ':' !in g && Clean(rest) && rest != ""
    ensures Clean(g + ":" + rest)
  {
    var s := g + ":" + rest;
    forall i | 0 <= i < |s| - 1 ensures !(s[i] == ':' && s[i + 1] == ':') {
      if i < |g| {
        assert s[i] == g[i] && g[i] in g;
      } else if i > |g| {
        assert !(rest[i - |g| - 1] == ':' && rest[i - |g|] == ':');
      }
    }
    assert g[0] in g;
  }

  lemma {:induction false} JoinClean(groups: seq<string>)
    requires Solid(groups)
    ensures Clean(Join(groups, ':')) && (Join(groups, ':') == "" <==> groups == [])
  {
    if |groups| == 1 {
      var g := groups[0];
      assert forall i :: 0 <= i < |g| ==> g[i] in g;
    } else if |groups| > 1 {
      JoinClean(groups[1..]);
      ConsClean(groups[0], Join(groups[1..], ':'));
    }
  }

  /** Split at the first colon. */
  lemma {:induction false} FirstColon(s: string) returns (g: string, rest: string)
    requires ':' in s
    ensures s == g + ":" + rest && ':' !in g
  {
    if s[0] == ':' {
      g, rest := "", s[1..];
    } else {
      assert s == [s[0]] + s[1..];
      g, rest := FirstColon(s[1..]);
      g := [s[0]] + g;
    }
  }

  lemma {:induction false} CleanSplit(s: string)
    requires Clean(s) && s != ""
    ensures Solid(Split(s, ':'))
    decreases |s|
  {
    if ':' in s {
      var g, rest := FirstColon(s);
      TailClean(g, rest);
      SplitAppend(g, rest, ':');
      SplitNone(g, ':');
      CleanSplit(rest);
    } else {
      SplitNone(s, ':');
    }
  }

  lemma TailClean(g: string, rest: string)
    requires Clean(g + ":" + rest) && ':' !in g
    ensures g != "" && rest != "" && Clean(rest)
  {
    var s := g + ":" + rest;
    assert s[|g|] == ':';
    if rest != "" {
      assert rest[0] == s[|g| + 1] && rest[|rest| - 1] == s[|s| - 1];
    }
    forall i | 0 <= i < |rest| - 1 ensures !(rest[i] == ':' && rest[i + 1] == ':') {
      assert !(s[|g| + 1 + i] == ':' && s[|g| + 1 + i + 1] == ':');
    }
  }

  lemma {:induction false} NonEmptyAppend(a: seq<string>, b: seq<string>)
    ensures NonEmpty(a + b) == NonEmpty(a) + NonEmpty(b)
  {
    if a == [] {
      assert a + b == b;
    } else {
      assert (a + b)[1..] == a[1..] + b;
      NonEmptyAppend(a[1..], b);
    }
  }

  lemma {:induction false} NonEmptySolid(groups: seq<string>)
    requires Solid(groups)
    ensures NonEmpty(groups) == groups
  {
    if groups != [] { NonEmptySolid(groups[1..]); }
  }

  /** The non-empty groups of a clean part are its groups. */
  lemma PartGroups(groups: seq<string>)
    requires Solid(groups)
    ensures NonEmpty(Split(Join(groups, ':'), ':')) == groups
  {
    if groups != [] {
      SplitJoin(groups, ':');
      NonEmptySolid(groups);
    }
  }

  // ------------------------------------------------------------------------
  // Counting elisions
  // ------------------------------------------------------------------------

  lemma {:induction false} ElisionsZero(s: string)
    ensures Elisions(s) == 0 <==> !Doubled(s)
  {
    if |s| >= 2 && !StartsDouble(s) {
      ElisionsZero(s[1..]);
      if i :| 0 <= i < |s| - 1 && s[i] == ':' && s[i + 1] == ':' {
        assert s[1..][i - 1] == ':' && s[1..][i] == ':';
      }
      if i :| 0 <= i < |s[1..]| - 1 && s[1..][i] == ':' && s[1..][i + 1] == ':' {
        assert s[i + 1] == ':' && s[i + 2] == ':';
      }
    }
  }

  lemma {:induction false} OneElision(x: string, y: string)
    requires !Doubled(x) && (x != "" ==> x[|x| - 1] != ':') && !Doubled(y)
    ensures Elisions(x + "::" + y) == 1
  {
    var s := x + "::" + y;
    if x == "" {
      assert s == "::" + y && s[2..] == y;
      ElisionsZero(y);
    } else {
      assert s[0] == x[0] && s[1] == (if |x| > 1 then x[1] else ':');
      assert s[1..] == x[1..] + "::" + y;
      assert !Doubled(x[1..]) by {
        forall i | 0 <= i < |x[1..]| - 1 ensures !(x[1..][i] == ':' && x[1..][i + 1] == ':') {
          assert !(x[i + 1] == ':' && x[i + 2] == ':');
        }
      }
      OneElision(x[1..], y);
    }
  }

  lemma NoTriple(x: string, y: string)
    requires Clean(x) && Clean(y)
    ensures !HasTriple(x + "::" + y)
  {
    var s := x + "::" + y;
    forall i | 0 <= i < |s| - 2 ensures !(s[i] == ':' && s[i + 1] == ':' && s[i + 2] == ':') {
      if i + 1 < |x| {
        assert !(x[i] == ':' && x[i + 1] == ':');
      } else if i < |x| {
        assert s[i] == x[|x| - 1];
      } else if i == |x| {
        assert s[i + 2] == y[0];
      } else if i > |x| + 1 {
        assert !(y[i - |x| - 2] == ':' && y[i - |x| - 1] == ':');
      } else {
        assert s[i + 1] == y[0];
      }
    }
  }

  /** The first elision, if there is one. */
  lemma {:induction false} FirstDouble(s: string) returns (i: nat)
    requires Elisions(s) >= 1
    ensures i < |s| - 1 && s[i] == ':' && s[i + 1] == ':' && Elisions(s) == 1 + Elisions(s[i + 2..])
    ensures forall k :: 0 <= k < i ==> !(s[k] == ':' && s[k + 1] == ':')
  {
    if StartsDouble(s) {
      i := 0;
    } else {
      i := FirstDouble(s[1..]);
      assert s[1..][i + 2..] == s[i + 3..];
      assert forall k :: 0 < k <= i ==> s[1..][k - 1] == s[k] && s[1..][k] == s[k + 1];
      i := i + 1;
    }
  }

  /** What passes the colon checks with one elision is two clean parts around it. */
  lemma CutAtElision(s: string) returns (x: string, y: string)
    requires Elisions(s) == 1 && !HasTriple(s)
    requires s[0] == ':' ==> StartsDouble(s)
    requires s[|s| - 1] == ':' ==> s[|s| - 2] == ':'
    ensures s == x + "::" + y && Clean(x) && Clean(y)
  {
    var i := FirstDouble(s);
    x, y := s[..i], s[i + 2..];
    ElisionsZero(y);
    assert s == x + "::" + y;
    forall k | 0 <= k < |x| - 1 ensures !(x[k] == ':' && x[k + 1] == ':') {
      assert !(s[k] == ':' && s[k + 1] == ':');
    }
    if i > 0 {
      var k := i - 1;
      assert s[k + 1] == ':' && s[k] != ':';
      assert s[0] != ':';
    }
    if y != "" {
      assert !(s[i] == ':' && s[i + 1] == ':' && s[i + 2] == ':') && s[i + 2] == y[0];
      if |y| >= 2 { assert !(y[|y| - 2] == ':' && y[|y| - 2 + 1] == ':'); }
    }
  }

  // ------------------------------------------------------------------------
  // Reading groups and quad
  // ------------------------------------------------------------------------

  lemma {:induction false} LastColonAt(p: string, q: string)
    requires ':' !in q
    ensures LastColon(p + ":" + q) == |p|
  {
    var s := p + ":" + q;
    if q != "" {
      var front := q[..|q| - 1];
      assert s[..|s| - 1] == p + ":" + front;
      assert s[|s| - 1] == q[|q| - 1] && q[|q| - 1] in q;
      LastColonAt(p, front);
    }
  }

  lemma {:induction false} LastColonNone(s: string)
    requires ':' !in s
    ensures LastColon(s) == -1
  {
    if s != "" {
      assert s[|s| - 1] in s;
      LastColonNone(s[..|s| - 1]);
    }
  }

  /** What follows the last colon, in terms of the last group. */
  lemma QuadAfter(p: string, q: string)
    requires ':' !in q
    ensures QuadOf(p + ":" + q) == if '.' in q then Some(q) else None
    ensures '.' in q ==> Explicit(p + ":" + q) == NonEmpty(Split(p, ':'))
  {
    LastColonAt(p, q);
    var s := p + ":" + q;
    assert s[|p| + 1..] == q && s[..|p|] == p;
  }

  function LastOf(groups: seq<string>): string
    requires groups != []
  {
    groups[|groups| - 1]
  }

  ghost predicate EndsInQuad(groups: seq<string>) {
    groups != [] && '.' in LastOf(groups)
  }

  function Before(groups: seq<string>): seq<string> {
    if groups == [] then [] else groups[..|groups| - 1]
  }

  lemma ReadPlain(groups: seq<string>)
    requires Solid(groups) && |groups| >= 2
    ensures var s := Join(groups, ':');
      && QuadOf(s) == (if EndsInQuad(groups) then Some(LastOf(groups)) else None)
      && Explicit(s) == if EndsInQuad(groups) then Before(groups) else groups
  {
    hide Join, QuadOf, Explicit, Split, NonEmpty;
    var front, last := Before(groups), LastOf(groups);
    assert groups == front + [last];
    JoinAppend(front, last, ':');
    QuadAfter(Join(front, ':'), last);
    NoQuadNoCut(Join(groups, ':'));
    PartGroups(front);
    PartGroups(groups);
  }

  lemma ReadOne(g: string)
    requires ':' !in g && g != ""
    ensures QuadOf(g) == None && Explicit(g) == [g]
  {
    LastColonNone(g);
    SplitNone(g, ':');
    assert NonEmpty([g]) == [g];
  }

  /** The non-empty groups of a string with an elision are those of its two parts. */
  lemma ElidedGroups(left: seq<string>, right: seq<string>)
    requires Solid(left) && Solid(right)
    ensures NonEmpty(Split(Join(left, ':') + "::" + Join(right, ':'), ':')) == left + right
    ensures NonEmpty(Split(Join(left, ':') + ":", ':')) == left
  {
    hide Join, QuadOf, Explicit;
    var x, y := Join(left, ':'), Join(right, ':');
    PartGroups(left);
    PartGroups(right);
    assert x + "::" + y == (x + ":" + "") + ":" + y;
    SplitAppend(x + ":" + "", y, ':');
    SplitAppend(x, "", ':');
    assert x + ":" + "" == x + ":";
    assert Split("", ':') == [""] && NonEmpty([""]) == [];
    NonEmptyAppend(Split(x, ':'), [""]);
    NonEmptyAppend(Split(x, ':') + [""], Split(y, ':'));
  }

  lemma NoQuadNoCut(s: string)
    ensures QuadOf(s).None? ==> Explicit(s) == NonEmpty(Split(s, ':'))
  {
  }

  lemma ReadElided(left: seq<string>, right: seq<string>)
    requires Solid(left) && Solid(right)
    ensures var s := Join(left, ':') + "::" + Join(right, ':');
      && QuadOf(s) == (if EndsInQuad(right) then Some(LastOf(right)) else None)
      && Explicit(s) == left + if EndsInQuad(right) then Before(right) else right
  {
    hide Join, QuadOf, Explicit, Split, NonEmpty;
    var x, y := Join(left, ':'), Join(right, ':');
    var s := x + "::" + y;
    ElidedGroups(left, right);
    NoQuadNoCut(s);
    if |right| <= 1 {
      JoinShort(if right == [] then "" else right[0]);
      assert right != [] ==> right == [right[0]];
      assert y == (if right == [] then "" else right[0]) && s == (x + ":") + ":" + y;
      QuadAfter(x + ":", y);
      if |right| == 1 { assert Before(right) == []; }
    } else {
      var front, last := Before(right), LastOf(right);
      assert right == front + [last];
      JoinAppend(front, last, ':');
      assert s == (x + "::" + Join(front, ':')) + ":" + last;
      QuadAfter(x + "::" + Join(front, ':'), last);
      ElidedGroups(left, front);
    }
  }

  // ------------------------------------------------------------------------
  // What is accepted is in normal form
  // ------------------------------------------------------------------------

  lemma AcceptedElided(s: string)
    requires IsValidIpv6(s) && Elisions(s) == 1
    ensures Normal(s)
  {
    hide Split, Join, QuadOf, Explicit, Elisions, Clean;
    var x, y := CutAtElision(s);
    JoinShort("");
    var left := if x == "" then [] else Split(x, ':');
    var right := if y == "" then [] else Split(y, ':');
    if x != "" { CleanSplit(x); }
    if y != "" { CleanSplit(y); }
    JoinSplit(x, ':');
    JoinSplit(y, ':');
    ReadElided(left, right);
    AcceptedIs(s, true, left, right);
  }

  lemma AcceptedPlain(s: string)
    requires IsValidIpv6(s) && Elisions(s) != 1
    ensures Normal(s)
  {
    hide Split, Join, QuadOf, Explicit, Elisions;
    ElisionsZero(s);
    CleanSplit(s);
    JoinSplit(s, ':');
    var groups := Split(s, ':');
    if |groups| == 1 {
      JoinShort(groups[0]);
      assert groups == [groups[0]];
      ReadOne(s);
    } else { ReadPlain(groups); }
    AcceptedIs(s, false, [], groups);
  }

  /** What the recogniser has tested of the groups it read. */
  lemma AcceptedGroups(s: string)
    requires IsValidIpv6(s)
    ensures Elisions(s) <= 1 && (QuadOf(s).Some? ==> IsValidIpv4(QuadOf(s).value)) && AllH16(Explicit(s))
    ensures var total := |Explicit(s)| + if QuadOf(s).Some? then 2 else 0;
      if Elisions(s) == 1 then total <= 7 else total == 8
  {
    hide Split, QuadOf, Explicit, Elisions, H16, IsValidIpv4, HasTriple, StartsDouble, AddressChars;
  }

  lemma AcceptedIs(s: string, elided: bool, left: seq<string>, right: seq<string>)
    requires IsValidIpv6(s) && (elided <==> Elisions(s) == 1) && (!elided ==> left == [] && |right| >= 1)
    requires s == if elided then Join(left, ':') + "::" + Join(right, ':') else Join(right, ':')
    requires QuadOf(s) == if EndsInQuad(right) && (elided || |right| >= 2) then Some(LastOf(right)) else None
    requires Explicit(s) == left + if QuadOf(s).Some? then Before(right) else right
    ensures Normal(s)
  {
    hide Split, Join, QuadOf, Explicit, Elisions, H16, IsValidIpv4, IsValidIpv6;
    AcceptedGroups(s);
    var quad := QuadOf(s);
    var a := Address(elided, left, if quad.Some? then Before(right) else right, quad);
    assert Tail(a) == right;
    assert forall i :: 0 <= i < |left| ==> Explicit(s)[i] == left[i];
    assert forall i :: 0 <= i < |a.right| ==> Explicit(s)[|left| + i] == a.right[i];
    assert WellFormed(a) && Render(a) == s;
  }

  // ------------------------------------------------------------------------
  // What is in normal form is accepted
  // ------------------------------------------------------------------------

  lemma H16Shape(g: string)
    requires H16(g)
    ensures g != "" && ':' !in g && '.' !in g && AddressChars(g)
  {
  }

  ghost predicate Pieces(groups: seq<string>) {
    forall i :: 0 <= i < |groups| ==> H16(groups[i]) || (i == |groups| - 1 && IsValidIpv4(groups[i]))
  }

  lemma PieceShape(groups: seq<string>, i: nat)
    requires Pieces(groups) && i < |groups|
    ensures groups[i] != "" && ':' !in groups[i] && AddressChars(groups[i])
    ensures |groups[i]| <= if '.' in groups[i] then 15 else 4
  {
    if H16(groups[i]) { H16Shape(groups[i]); } else { Ipv4Shape(groups[i]); }
  }

  lemma {:induction false} JoinShape(groups: seq<string>)
    requires Pieces(groups)
    ensures Solid(groups) && AddressChars(Join(groups, ':'))
    ensures |Join(groups, ':')| + 1 <= if groups == [] then 1 else 5 * |groups| + if EndsInQuad(groups) then 11 else 0
  {
    forall i | 0 <= i < |groups| ensures groups[i] != "" && ':' !in groups[i] { PieceShape(groups, i); }
    if groups != [] {
      PieceShape(groups, 0);
      if |groups| > 1 {
        if H16(groups[0]) { H16Shape(groups[0]); }
        JoinShape(groups[1..]);
        assert LastOf(groups[1..]) == LastOf(groups);
      }
    }
  }

  lemma TailPieces(a: Address)
    requires WellFormed(a)
    ensures Pieces(Tail(a)) && (EndsInQuad(Tail(a)) <==> a.quad.Some?)
    ensures a.quad.Some? ==> LastOf(Tail(a)) == a.quad.value && Before(Tail(a)) == a.right
    ensures a.quad.None? ==> Tail(a) == a.right
  {
    if a.quad.Some? {
      Ipv4Shape(a.quad.value);
    } else if a.right != [] {
      assert H16(LastOf(a.right));
      H16Shape(LastOf(a.right));
    }
  }

  /** The longest address has 45 characters, so the length cap loses none. */
  lemma NormalIsShort(a: Address)
    requires WellFormed(a)
    ensures 2 <= |Render(a)| <= 45 && AddressChars(Render(a))
  {
    hide Join, H16, IsValidIpv4, AddressChars, Tail;
    TailPieces(a);
    JoinShape(a.left);
    JoinShape(Tail(a));
    if a.left != [] && EndsInQuad(a.left) { H16Shape(LastOf(a.left)); }
    if a.elided {
      CharsAppend(Join(a.left, ':'), Join(Tail(a), ':'));
    } else {
      JoinLongEnough(Tail(a));
    }
  }

  lemma CharsAppend(x: string, y: string)
    requires AddressChars(x) && AddressChars(y)
    ensures AddressChars(x + "::" + y)
  {
  }

  lemma JoinLongEnough(groups: seq<string>)
    requires |groups| >= 2 && Solid(groups)
    ensures |Join(groups, ':')| >= 2
  {
  }

  lemma ElidedEnds(x: string, y: string)
    requires Clean(x) && Clean(y)
    ensures var s := x + "::" + y;
      && (s[0] == ':' ==> StartsDouble(s)) && (s[|s| - 1] == ':' ==> s[|s| - 2] == ':')
  {
  }

  /** The recogniser's tests on the colons of an address in normal form. */
  lemma NormalColons(a: Address)
    requires WellFormed(a)
    ensures var s := Render(a);
      && 2 <= |s| && !HasTriple(s) && (s[0] == ':' ==> StartsDouble(s))
      && (s[|s| - 1] == ':' ==> s[|s| - 2] == ':') && Elisions(s) == if a.elided then 1 else 0
  {
    hide QuadOf, Explicit, H16, Tail, HasTriple, StartsDouble, Elisions;
    NormalIsShort(a);
    TailPieces(a);
    JoinShape(a.left);
    JoinShape(Tail(a));
    JoinClean(a.left);
    JoinClean(Tail(a));
    if a.elided {
      var x, y := Join(a.left, ':'), Join(Tail(a), ':');
      OneElision(x, y);
      NoTriple(x, y);
      ElidedEnds(x, y);
    } else {
      PlainColons(Render(a));
    }
  }

  lemma PlainColons(s: string)
    requires Clean(s) && 2 <= |s|
    ensures !HasTriple(s) && Elisions(s) == 0 && s[0] != ':' && s[|s| - 1] != ':'
  {
    ElisionsZero(s);
  }

  /** What the recogniser reads from an address in normal form. */
  lemma NormalGroups(a: Address)
    requires WellFormed(a)
    ensures QuadOf(Render(a)) == a.quad && Explicit(Render(a)) == a.left + a.right
  {
    hide QuadOf, Explicit, H16, Tail;
    TailPieces(a);
    JoinShape(a.left);
    JoinShape(Tail(a));
    if a.elided { ReadElided(a.left, Tail(a)); } else { ReadPlain(Tail(a)); }
  }

  lemma NormalIsAccepted(a: Address)
    requires WellFormed(a)
    ensures IsValidIpv6(Render(a))
  {
    hide Render, QuadOf, Explicit, H16, HasTriple, StartsDouble, Elisions, IsValidIpv4, AddressChars;
    NormalIsShort(a);
    NormalColons(a);
    NormalGroups(a);
    forall i | 0 <= i < |a.left + a.right| ensures H16((a.left + a.right)[i]) {
      assert (a.left + a.right)[i] == if i < |a.left| then a.left[i] else a.right[i - |a.left|];
    }
  }

  /** isValidIpv6 accepts exactly the IPv6address of RFC 3986, section 3.2.2. */
  lemma Ipv6Exact(s: string)
    ensures IsValidIpv6(s) <==> IPv6Address(s)
  {
    GrammarExact(s);
    if IsValidIpv6(s) {
      if Elisions(s) == 1 { AcceptedElided(s); } else { AcceptedPlain(s); }
    }
    if a :| WellFormed(a) && Render(a) == s { NormalIsAccepted(a); }
  }
}
