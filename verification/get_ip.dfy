/** The address selection of get-ip.js: which local IPv4 address the
    development server announces (and puts into its self-signed
    certificate). The operating system's interface table and the
    `PREFERRED_IP` environment variable are parameters here; the logging is
    left out. */
module NetworkAddress {
  import opened Optional
  import opened Text

  /** One entry of an interface's address list as the operating system
      reports it. */
  datatype InterfaceInfo = InterfaceInfo(family: string, internal: bool, address: string)

  /** An interface name with its addresses, one pair of the interface table
      in enumeration order. */
  type InterfaceEntry = (string, seq<InterfaceInfo>)

  /** An address offered for selection, tagged with its interface's name. */
  datatype Candidate = Candidate(name: string, address: string)

  const Loopback: string := "127.0.0.1"

  /** The filter of `getNetworkInterfaces`: IPv4 and not internal. */
  predicate IsExternalIPv4(info: InterfaceInfo) {
    info.family == "IPv4" && !info.internal
  }

  /** The candidates one interface contributes, in its own address order. */
  function ExternalOf(name: string, infos: seq<InterfaceInfo>): (r: seq<Candidate>)
    ensures |r| <= |infos|
    ensures forall c :: c in r ==> c.name == name
  {
    if infos == [] then []
    else
      var rest := ExternalOf(name, infos[..|infos| - 1]);
      var info := infos[|infos| - 1];
      if IsExternalIPv4(info) then rest + [Candidate(name, info.address)] else rest
  }

  /** The candidate list: every interface's external IPv4 addresses, one
      interface after the other in enumeration order. */
  function Candidates(entries: seq<InterfaceEntry>): (r: seq<Candidate>)
    // every candidate is named after an interface of the table
    ensures forall c :: c in r ==> exists e :: e in entries && e.0 == c.name
  {
    if entries == [] then []
    else
      var (name, infos) := entries[|entries| - 1];
      Candidates(entries[..|entries| - 1]) + ExternalOf(name, infos)
  }

  /** `getNetworkInterfaces`: the two nested loops that push every
      qualifying address, in the order the table lists them. */
  method GetNetworkInterfaces(entries: seq<InterfaceEntry>) returns (valid: seq<Candidate>)
    ensures valid == Candidates(entries)
    ensures forall c :: c in valid <==> IsCandidate(entries, c)
  {
    valid := [];
    var i := 0;
    while i < |entries|
      invariant 0 <= i <= |entries|
      invariant valid == Candidates(entries[..i])
    {
      var (name, infos) := entries[i];
      var j := 0;
      while j < |infos|
        invariant 0 <= j <= |infos|
        invariant valid == Candidates(entries[..i]) + ExternalOf(name, infos[..j])
      {
        var info := infos[j];
        assert infos[..j + 1][..j] == infos[..j];
        if IsExternalIPv4(info) {
          valid := valid + [Candidate(name, info.address)];
        }
        j := j + 1;
      }
      assert infos[..j] == infos;
      assert entries[..i + 1][..i] == entries[..i];
      i := i + 1;
    }
    assert entries[..i] == entries;
    CandidatesMembership(entries);
  }

  /** `c` stems from an IPv4, non-internal address of the interface it
      names. */
  ghost predicate IsCandidate(entries: seq<InterfaceEntry>, c: Candidate) {
    exists i, j :: 0 <= i < |entries| && 0 <= j < |entries[i].1|
      && entries[i].0 == c.name && IsExternalIPv4(entries[i].1[j])
      && entries[i].1[j].address == c.address
  }

  lemma {:induction false} ExternalOfMembership(name: string, infos: seq<InterfaceInfo>, c: Candidate)
    ensures c in ExternalOf(name, infos) <==>
      c.name == name && exists j :: 0 <= j < |infos| && IsExternalIPv4(infos[j]) && infos[j].address == c.address
  {
    if infos != [] {
      var init := infos[..|infos| - 1];
      ExternalOfMembership(name, init, c);
      if c.name == name && (exists j :: 0 <= j < |infos| && IsExternalIPv4(infos[j]) && infos[j].address == c.address) {
        var j :| 0 <= j < |infos| && IsExternalIPv4(infos[j]) && infos[j].address == c.address;
        if j < |infos| - 1 {
          assert init[j] == infos[j];
        }
      }
      if c in ExternalOf(name, init) {
        var j :| 0 <= j < |init| && IsExternalIPv4(init[j]) && init[j].address == c.address;
        assert infos[j] == init[j];
      }
    }
  }

  /** `getNetworkInterfaces` returns exactly the IPv4, non-internal
      addresses, each tagged with its own interface name. */
  lemma {:induction false} CandidatesMembership(entries: seq<InterfaceEntry>)
    ensures forall c :: c in Candidates(entries) <==> IsCandidate(entries, c)
  {
    if entries != [] {
      var init := entries[..|entries| - 1];
      var (name, infos) := entries[|entries| - 1];
      CandidatesMembership(init);
      forall c
        ensures c in Candidates(entries) <==> IsCandidate(entries, c)
      {
        ExternalOfMembership(name, infos, c);
        if IsCandidate(entries, c) {
          var i, j :| 0 <= i < |entries| && 0 <= j < |entries[i].1|
            && entries[i].0 == c.name && IsExternalIPv4(entries[i].1[j])
            && entries[i].1[j].address == c.address;
          if i < |entries| - 1 {
            assert init[i] == entries[i];
            assert IsCandidate(init, c);
          }
        }
        if IsCandidate(init, c) {
          var i, j :| 0 <= i < |init| && 0 <= j < |init[i].1|
            && init[i].0 == c.name && IsExternalIPv4(init[i].1[j])
            && init[i].1[j].address == c.address;
          assert entries[i] == init[i];
        }
        if c in ExternalOf(name, infos) {
          var j :| 0 <= j < |infos| && IsExternalIPv4(infos[j]) && infos[j].address == c.address;
          assert entries[|entries| - 1].1[j] == infos[j];
        }
      }
    }
  }

  /** The four priority rules, in the order they are tried. */
  datatype Tier = Subnet50 | Private192 | Private10 | Private172

  const Priorities: seq<Tier> := [Subnet50, Private192, Private10, Private172]

  /** `1[6-9]|2[0-9]|3[01]`: the two characters of a second octet 16..31. */
  predicate OctetSixteenToThirtyOne(d1: char, d2: char) {
    || (d1 == '1' && '6' <= d2 <= '9')
    || (d1 == '2' && '0' <= d2 <= '9')
    || (d1 == '3' && (d2 == '0' || d2 == '1'))
  }

  /** `^172\.(1[6-9]|2[0-9]|3[01])\.` */
  predicate IsPrivate172(a: string) {
    7 <= |a| && a[..4] == "172." && OctetSixteenToThirtyOne(a[4], a[5]) && a[6] == '.'
  }

  /** `priority.test(address)` for each of the four rules. */
  function Matches(t: Tier, a: string): (r: bool)
    // the first rule is a special case of the second
    ensures t == Subnet50 && r ==> StartsWith(a, "192.168.")
    // the last rule needs room for `172.`, two digits and a dot
    ensures t == Private172 && r ==> 7 <= |a| && StartsWith(a, "172.")
  {
    assert StartsWith(a, "192.168.50.") ==> a[..8] == "192.168.50."[..8];
    match t
    case Subnet50 => StartsWith(a, "192.168.50.")
    case Private192 => StartsWith(a, "192.168.")
    case Private10 => StartsWith(a, "10.")
    case Private172 => IsPrivate172(a)
  }

  /** Some candidate satisfies rule `t`. */
  predicate AnyMatch(cands: seq<Candidate>, t: Tier) {
    exists i :: 0 <= i < |cands| && Matches(t, cands[i].address)
  }

  /** `i` is the position `find` stops at for rule `t`. */
  predicate FirstMatch(cands: seq<Candidate>, t: Tier, i: int) {
    && 0 <= i < |cands|
    && Matches(t, cands[i].address)
    && forall j :: 0 <= j < i ==> !Matches(t, cands[j].address)
  }

  /** `interfaces.find(iface => priority.test(iface.address))`, scanning
      from position `start`; the result is the position found. */
  function FindFrom(cands: seq<Candidate>, t: Tier, start: nat): (r: Option<nat>)
    requires start <= |cands|
    requires forall j :: 0 <= j < start ==> !Matches(t, cands[j].address)
    ensures r.None? <==> !AnyMatch(cands, t)
    ensures r.Some? ==> FirstMatch(cands, t, r.value)
    decreases |cands| - start
  {
    if start == |cands| then None
    else if Matches(t, cands[start].address) then Some(start)
    else FindFrom(cands, t, start + 1)
  }

  function Find(cands: seq<Candidate>, t: Tier): (r: Option<nat>)
    ensures r.None? <==> !AnyMatch(cands, t)
    ensures r.Some? ==> FirstMatch(cands, t, r.value)
  {
    FindFrom(cands, t, 0)
  }

  /** Which rule fired (its position in the priority list) and which
      candidate it found. */
  datatype Choice = Choice(tier: nat, index: nat)

  /** The `for (const priority of priorities)` loop over the rules
      `tiers[from..]`: the first rule some candidate satisfies, and the first
      candidate satisfying it. */
  function SelectFrom(cands: seq<Candidate>, tiers: seq<Tier>, from: nat): (r: Option<Choice>)
    requires from <= |tiers|
    requires forall k :: 0 <= k < from ==> !AnyMatch(cands, tiers[k])
    ensures r.None? <==> forall k :: 0 <= k < |tiers| ==> !AnyMatch(cands, tiers[k])
    ensures r.Some? ==>
      && r.value.tier < |tiers|
      && FirstMatch(cands, tiers[r.value.tier], r.value.index)
      && forall k :: 0 <= k < r.value.tier ==> !AnyMatch(cands, tiers[k])
    decreases |tiers| - from
  {
    if from == |tiers| then None
    else match Find(cands, tiers[from])
      case Some(i) => Some(Choice(from, i))
      case None => SelectFrom(cands, tiers, from + 1)
  }

  /** `process.env.PREFERRED_IP` is truthy: set and not empty. */
  predicate Overrides(preferred: Option<string>) {
    preferred.Some? && preferred.value != ""
  }

  /** `getLocalIP`, with the interface table and the environment variable as
      parameters. */
  function LocalIP(entries: seq<InterfaceEntry>, preferred: Option<string>): (r: string)
    ensures Overrides(preferred) ==> r == preferred.value
    ensures !Overrides(preferred) && Candidates(entries) == [] ==> r == Loopback
    ensures !Overrides(preferred) && Candidates(entries) != [] ==>
      exists i :: 0 <= i < |Candidates(entries)| && r == Candidates(entries)[i].address
  {
    var cands := Candidates(entries);
    if Overrides(preferred) then preferred.value
    else match SelectFrom(cands, Priorities, 0)
      case Some(c) => cands[c.index].address
      case None => if |cands| > 0 then cands[0].address else Loopback
  }

  /** `PREFERRED_IP` set to the empty string is ignored, and any other value
      is returned whatever the interfaces are. */
  lemma PreferredIPOverride(entries: seq<InterfaceEntry>, v: string)
    ensures LocalIP(entries, Some("")) == LocalIP(entries, None)
    ensures v != "" ==> LocalIP(entries, Some(v)) == v
  {
  }

  /** The selection rule in full: with no override, the address chosen is
      the first candidate of the first rule any candidate satisfies. */
  lemma LocalIPPicksFirstOfFirstTier(entries: seq<InterfaceEntry>, preferred: Option<string>, k: nat, i: nat)
    requires !Overrides(preferred)
    requires k < |Priorities|
    requires forall k' :: 0 <= k' < k ==> !AnyMatch(Candidates(entries), Priorities[k'])
    requires FirstMatch(Candidates(entries), Priorities[k], i)
    ensures LocalIP(entries, preferred) == Candidates(entries)[i].address
  {
    var cands := Candidates(entries);
    var c := SelectFrom(cands, Priorities, 0);
    assert AnyMatch(cands, Priorities[k]) by {
      assert Matches(Priorities[k], cands[i].address);
    }
    assert c.Some?;
    var t := c.value.tier;
    assert !(t < k) by {
      assert AnyMatch(cands, Priorities[t]);
    }
    assert t == k;
    FirstMatchUnique(cands, Priorities[k], i, c.value.index);
  }

  /** `find` stops at one position only. */
  lemma FirstMatchUnique(cands: seq<Candidate>, t: Tier, i: int, j: int)
    requires FirstMatch(cands, t, i) && FirstMatch(cands, t, j)
    ensures i == j
  {
  }

  /** A `192.168.50.` address wins whenever one is present. */
  lemma Subnet50Wins(entries: seq<InterfaceEntry>, preferred: Option<string>, i: nat)
    requires !Overrides(preferred)
    requires FirstMatch(Candidates(entries), Subnet50, i)
    ensures LocalIP(entries, preferred) == Candidates(entries)[i].address
  {
    LocalIPPicksFirstOfFirstTier(entries, preferred, 0, i);
  }

  /** No rule fires: the first candidate is used. */
  lemma FallsBackToFirstCandidate(entries: seq<InterfaceEntry>, preferred: Option<string>)
    requires !Overrides(preferred)
    requires forall k :: 0 <= k < |Priorities| ==> !AnyMatch(Candidates(entries), Priorities[k])
    requires Candidates(entries) != []
    ensures LocalIP(entries, preferred) == Candidates(entries)[0].address
  {
  }

  /** The rules are strictly ordered: when the chosen address satisfies rule
      `k` but no earlier rule, no candidate at all satisfies an earlier rule. */
  lemma TiersAreStrictlyOrdered(entries: seq<InterfaceEntry>, preferred: Option<string>, k: nat)
    requires !Overrides(preferred)
    requires k < |Priorities|
    requires Matches(Priorities[k], LocalIP(entries, preferred))
    requires forall k' :: 0 <= k' < k ==> !Matches(Priorities[k'], LocalIP(entries, preferred))
    ensures forall k' :: 0 <= k' < k ==> !AnyMatch(Candidates(entries), Priorities[k'])
  {
    var cands := Candidates(entries);
    var r := LocalIP(entries, preferred);
    match SelectFrom(cands, Priorities, 0)
    case Some(c) =>
      assert r == cands[c.index].address;
      assert Matches(Priorities[c.tier], r);
    case None =>
  }

  /** A `10.` address is chosen only when no candidate starts `192.168.`. */
  lemma TenOnlyWithout192(entries: seq<InterfaceEntry>, preferred: Option<string>)
    requires !Overrides(preferred)
    requires StartsWith(LocalIP(entries, preferred), "10.")
    ensures !AnyMatch(Candidates(entries), Private192)
    ensures !AnyMatch(Candidates(entries), Subnet50)
  {
    EarlierTiersExclusive(LocalIP(entries, preferred));
    TiersAreStrictlyOrdered(entries, preferred, 2);
    assert Priorities[0] == Subnet50 && Priorities[1] == Private192;
  }

  /** A `172.16-31.` address is chosen only when no candidate satisfies any
      earlier rule. */
  lemma Private172OnlyWithoutEarlierTiers(entries: seq<InterfaceEntry>, preferred: Option<string>)
    requires !Overrides(preferred)
    requires IsPrivate172(LocalIP(entries, preferred))
    ensures forall k :: 0 <= k < 3 ==> !AnyMatch(Candidates(entries), Priorities[k])
  {
    EarlierTiersExclusive(LocalIP(entries, preferred));
    TiersAreStrictlyOrdered(entries, preferred, 3);
  }

  /** The `10.` and `172.` rules exclude the rules before them. */
  lemma EarlierTiersExclusive(a: string)
    ensures Matches(Private10, a) ==> !Matches(Subnet50, a) && !Matches(Private192, a)
    ensures Matches(Private172, a) ==>
      !Matches(Subnet50, a) && !Matches(Private192, a) && !Matches(Private10, a)
  {
    if 2 <= |a| && a[1] == '0' {
      assert !StartsWith(a, "192.168.") by { assert "192.168."[1] == '9'; }
      assert !StartsWith(a, "192.168.50.") by { assert "192.168.50."[1] == '9'; }
    }
    if IsPrivate172(a) {
      assert a[1] == "172."[1] == '7';
      assert !StartsWith(a, "192.168.") by { assert "192.168."[1] == '9'; }
      assert !StartsWith(a, "192.168.50.") by { assert "192.168.50."[1] == '9'; }
      assert !StartsWith(a, "10.") by { assert "10."[1] == '0'; }
    }
    if StartsWith(a, "10.") {
      assert a[1] == "10."[1];
    }
  }

  /** The `172.` rule is exactly "second octet written as the decimal text
      of 16..31, then a dot": `172.15.`, `172.32.`, `172.160.` and
      `172.016.` do not match it. */
  lemma Private172IsSecondOctet16To31(a: string)
    ensures IsPrivate172(a) <==>
      exists n :: 16 <= n <= 31 && StartsWith(a, Private172Prefix(n))
  {
    if IsPrivate172(a) {
      Private172HasOctet(a);
    }
    if exists n :: 16 <= n <= 31 && StartsWith(a, Private172Prefix(n)) {
      var n :| 16 <= n <= 31 && StartsWith(a, Private172Prefix(n));
      OctetMatchesPrivate172(a, n);
    }
  }

  lemma Private172HasOctet(a: string)
    requires IsPrivate172(a)
    ensures StartsWith(a, Private172Prefix(10 * DigitValue(a[4]) + DigitValue(a[5])))
  {
    var n := 10 * DigitValue(a[4]) + DigitValue(a[5]);
    assert 16 <= n <= 31;
    DecimalOfTwoDigits(n);
    assert n / 10 == DigitValue(a[4]) && n % 10 == DigitValue(a[5]);
    assert NatToDecimal(n) == [a[4], a[5]];
    assert a[..7] == a[..4] + [a[4], a[5]] + ".";
  }

  lemma OctetMatchesPrivate172(a: string, n: nat)
    requires 16 <= n <= 31
    requires StartsWith(a, Private172Prefix(n))
    ensures IsPrivate172(a)
  {
    DecimalOfTwoDigits(n);
    var p := Private172Prefix(n);
    assert |p| == 7;
    assert a[..7] == p;
    assert a[4] == p[4] == DigitChar(n / 10);
    assert a[5] == p[5] == DigitChar(n % 10);
    assert a[6] == p[6] == '.';
    assert a[..4] == p[..4] == "172.";
  }

  function Private172Prefix(n: nat): string {
    "172." + NatToDecimal(n) + "."
  }

  lemma DecimalOfTwoDigits(n: nat)
    requires 10 <= n < 100
    ensures NatToDecimal(n) == [DigitChar(n / 10), DigitChar(n % 10)]
  {
    assert NatToDecimal(n / 10) == [DigitChar(n / 10)];
  }

  /** The boundary cases named by the rule's range. */
  lemma Private172Boundaries(rest: string)
    ensures !IsPrivate172("172.15." + rest)
    ensures !IsPrivate172("172.32." + rest)
    ensures !IsPrivate172("172.160." + rest)
    ensures IsPrivate172("172.16." + rest)
    ensures IsPrivate172("172.31." + rest)
  {
    assert ("172.15." + rest)[..7] == "172.15.";
    assert ("172.32." + rest)[..7] == "172.32.";
    assert ("172.160." + rest)[..7] == "172.160";
    assert ("172.16." + rest)[..7] == "172.16.";
    assert ("172.31." + rest)[..7] == "172.31.";
  }
}
