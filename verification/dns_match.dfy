/**
 * Matching query names against the DNS resource patterns the portal
 * configures (dns.rs `is_subdomain` and `get_description`). A pattern is
 * exact (`foo.com`), single-level (`?.foo.com`: the domain itself or one
 * label below it) or any-depth (`*.foo.com`: the domain itself or anything
 * below it). Unlike an RFC 4592 wildcard, `*.foo.com` also covers `foo.com`.
 *
 * The resource table is keyed by the pattern as a name; the source keys it
 * by the pattern's text, and looks names up by their `to_string()` form.
 */
module DnsMatch {

  import opened Wrappers
  import opened DomainName
  import opened Messages

  const QuestionMark: Label := "?"
  const Wildcard: Label := "*"

  type ResourceTable = map<Name, ResourceDescriptionDns>

  /** The key `?.d`. */
  function QuestionKey(d: Name): Name { [QuestionMark] + d }

  /** The key `*.d`. */
  function WildcardKey(d: Name): Name { [Wildcard] + d }

  /** `name.iter_suffixes().any(|n| n == d)`: the suffixes run from `name` itself down to the root. */
  predicate AnySuffix(name: Name, d: Name)
    decreases |name|
  {
    name == d || (name != [] && AnySuffix(name[1..], d))
  }

  /** `is_subdomain` once the pattern text has been parsed. */
  predicate Matches(name: Name, pattern: Name)
  {
    if pattern != [] && pattern[0] == QuestionMark then
      match Parent(pattern)
      case None => false
      case Some(r) => r == name || (match Parent(name) case None => false case Some(n) => r == n)
    else if pattern != [] && pattern[0] == Wildcard then
      match Parent(pattern)
      case None => false
      case Some(r) => AnySuffix(name, r)
    else
      name == pattern
  }

  /** `is_subdomain(name, resource)`: a pattern text that does not parse matches nothing. */
  predicate IsSubdomain(name: Name, resource: string)
  {
    match ParseName(resource)
    case None => false
    case Some(p) => Matches(name, p)
  }

  // ------------------------------------------------- properties of matching

  /** The suffix search finds exactly the label-aligned suffixes. */
  lemma {:induction false} AnySuffixIsLabelSuffix(name: Name, d: Name)
    ensures AnySuffix(name, d) <==> IsLabelSuffix(d, name)
    decreases |name|
  {
    if name != [] {
      AnySuffixIsLabelSuffix(name[1..], d);
      if |d| <= |name[1..]| {
        assert name[1..][|name[1..]| - |d|..] == name[|name| - |d|..];
      }
    }
  }

  /** A text that is not a `?.` or `*.` pattern matches exactly the name it denotes. */
  lemma IsSubdomainExact(name: Name, resource: string, d: Name)
    requires ParseName(resource) == Some(d)
    requires d == [] || (d[0] != QuestionMark && d[0] != Wildcard)
    ensures IsSubdomain(name, resource) <==> name == d
  {
  }

  /** `*.d` matches the names that end in `d`, label by label, `d` itself included. */
  lemma IsSubdomainWildcard(name: Name, resource: string, d: Name)
    requires ParseName(resource) == Some(WildcardKey(d))
    ensures IsSubdomain(name, resource) <==> IsLabelSuffix(d, name)
  {
    assert WildcardKey(d)[1..] == d;
    AnySuffixIsLabelSuffix(name, d);
  }

  /** `?.d` matches `d` and the names one label below it, and nothing else. */
  lemma IsSubdomainSingleLevel(name: Name, resource: string, d: Name)
    requires ParseName(resource) == Some(QuestionKey(d))
    ensures IsSubdomain(name, resource) <==> name == d || exists l :: name == [l] + d
  {
    MatchesSingleLevel(name, d);
  }

  /** The parsed form of `IsSubdomainSingleLevel`. */
  lemma MatchesSingleLevel(name: Name, d: Name)
    ensures Matches(name, QuestionKey(d)) <==> name == d || exists l :: name == [l] + d
  {
    assert QuestionKey(d)[1..] == d;
    if exists l :: name == [l] + d {
      var l :| name == [l] + d;
      assert name[1..] == d;
    }
    if name != [] && name[1..] == d {
      assert name == [name[0]] + d;
    }
  }

  /** Every name matches its own pattern. */
  lemma MatchesItself(n: Name)
    ensures Matches(n, n)
  {
    if n != [] && n[0] == Wildcard {
      assert AnySuffix(n[1..], n[1..]);
    }
  }

  // ------------------------------------------------------ get_description

  /**
   * `name.iter_suffixes().find_map(...)`: the description of `*.s` for the
   * first suffix `s` of `name`, longest first, that has one.
   */
  function FindWildcard(name: Name, table: ResourceTable): Option<ResourceDescriptionDns>
    decreases |name|
  {
    if WildcardKey(name) in table then Some(table[WildcardKey(name)])
    else if name == [] then None
    else FindWildcard(name[1..], table)
  }

  /**
   * `get_description`: the exact name, then `?.name`, then `?.parent`,
   * then `*.s` for the longest suffix `s` that has an entry.
   */
  function GetDescription(name: Name, table: ResourceTable): Option<ResourceDescriptionDns>
  {
    if name in table then Some(table[name])
    else if QuestionKey(name) in table then Some(table[QuestionKey(name)])
    else if name != [] && QuestionKey(name[1..]) in table then Some(table[QuestionKey(name[1..])])
    else FindWildcard(name, table)
  }

  /** `*.name[k..]` is the longest wildcard key for `name` present in `table`. */
  ghost predicate LongestWildcard(name: Name, table: ResourceTable, k: nat)
  {
    && k <= |name|
    && WildcardKey(name[k..]) in table
    && forall j :: 0 <= j < k ==> WildcardKey(name[j..]) !in table
  }

  /** The wildcard search returns the entry of the longest matching suffix, and fails only when none has one. */
  lemma {:induction false} FindWildcardLongest(name: Name, table: ResourceTable)
    ensures FindWildcard(name, table).None? <==> forall k :: 0 <= k <= |name| ==> WildcardKey(name[k..]) !in table
    ensures FindWildcard(name, table).Some? ==>
      exists k: nat :: LongestWildcard(name, table, k) && FindWildcard(name, table).value == table[WildcardKey(name[k..])]
    decreases |name|
  {
    assert name[0..] == name;
    if WildcardKey(name) in table {
      assert LongestWildcard(name, table, 0);
    } else if name != [] {
      var tail := name[1..];
      FindWildcardLongest(tail, table);
      forall k | 1 <= k <= |name| ensures name[k..] == tail[k - 1..] { }
      if FindWildcard(tail, table).None? {
        forall k | 0 <= k <= |name| ensures WildcardKey(name[k..]) !in table {
          if k > 0 { assert WildcardKey(tail[k - 1..]) !in table; }
        }
      } else {
        var k: nat :| LongestWildcard(tail, table, k) && FindWildcard(tail, table).value == table[WildcardKey(tail[k..])];
        assert LongestWildcard(name, table, k + 1) by {
          forall j | 0 <= j < k + 1 ensures WildcardKey(name[j..]) !in table {
            if j > 0 { assert WildcardKey(tail[j - 1..]) !in table; }
          }
        }
        assert WildcardKey(tail[k..]) in table;
      }
    }
  }

  /** The order in which `get_description` consults the table. */
  lemma GetDescriptionPriority(name: Name, table: ResourceTable)
    ensures name in table ==> GetDescription(name, table) == Some(table[name])
    ensures name !in table && QuestionKey(name) in table ==>
      GetDescription(name, table) == Some(table[QuestionKey(name)])
    ensures name !in table && QuestionKey(name) !in table && name != [] && QuestionKey(name[1..]) in table ==>
      GetDescription(name, table) == Some(table[QuestionKey(name[1..])])
    ensures name !in table && QuestionKey(name) !in table && (name == [] || QuestionKey(name[1..]) !in table) ==>
      (GetDescription(name, table).None? <==> forall k :: 0 <= k <= |name| ==> WildcardKey(name[k..]) !in table)
    ensures (name !in table && QuestionKey(name) !in table && (name == [] || QuestionKey(name[1..]) !in table)
             && GetDescription(name, table).Some?) ==>
      exists k: nat :: LongestWildcard(name, table, k) && GetDescription(name, table).value == table[WildcardKey(name[k..])]
  {
    FindWildcardLongest(name, table);
  }

  /**
   * `get_description` finds an entry exactly when some pattern in the table
   * matches the name in the sense of `is_subdomain`, and what it returns is
   * the description of a matching pattern.
   */
  lemma GetDescriptionAgreesWithMatches(name: Name, table: ResourceTable)
    ensures GetDescription(name, table).Some? <==> exists p :: p in table && Matches(name, p)
    ensures GetDescription(name, table).Some? ==>
      exists p :: p in table && Matches(name, p) && table[p] == GetDescription(name, table).value
  {
    FindWildcardLongest(name, table);
    var r := GetDescription(name, table);
    if r.Some? {
      if name in table {
        MatchesItself(name);
      } else if QuestionKey(name) in table {
        assert Matches(name, QuestionKey(name));
      } else if name != [] && QuestionKey(name[1..]) in table {
        assert Matches(name, QuestionKey(name[1..]));
      } else {
        var k: nat :| LongestWildcard(name, table, k) && r.value == table[WildcardKey(name[k..])];
        assert WildcardKey(name[k..])[1..] == name[k..];
        AnySuffixIsLabelSuffix(name, name[k..]);
        assert Matches(name, WildcardKey(name[k..]));
      }
    }
    if exists p :: p in table && Matches(name, p) {
      var p :| p in table && Matches(name, p);
      if p != [] && p[0] == QuestionMark {
        assert p == QuestionKey(p[1..]);
      } else if p != [] && p[0] == Wildcard {
        var d := p[1..];
        assert p == WildcardKey(d);
        AnySuffixIsLabelSuffix(name, d);
        assert name[|name| - |d|..] == d;
        assert WildcardKey(name[|name| - |d|..]) in table;
      }
    }
  }

  // ------------------------------------------------- the unit-test vectors

  /** The `exact_subdomain_match` unit test, on parsed patterns. */
  lemma ExactMatchVectors()
    ensures Matches(["foo", "com"], ["foo", "com"])
    ensures !Matches(["a", "foo", "com"], ["foo", "com"])
    ensures !Matches(["a", "b", "foo", "com"], ["foo", "com"])
    ensures !Matches(["foo", "com"], ["a", "foo", "com"])
  {
  }

  /** The matching cases of the `wildcard_subdomain_match` unit test. */
  lemma WildcardMatchVectors()
    ensures Matches(["foo", "com"], WildcardKey(["foo", "com"]))
    ensures Matches(["a", "foo", "com"], WildcardKey(["foo", "com"]))
    ensures Matches(["a", "foo", "com"], WildcardKey(["a", "foo", "com"]))
    ensures Matches(["b", "a", "foo", "com"], WildcardKey(["a", "foo", "com"]))
    ensures Matches(["a", "b", "foo", "com"], WildcardKey(["foo", "com"]))
  {
    var foo: Name := ["foo", "com"];
    var afoo: Name := ["a", "foo", "com"];
    assert WildcardKey(foo)[1..] == foo;
    assert WildcardKey(afoo)[1..] == afoo;
    assert afoo[1..] == foo;
    assert ["b", "a", "foo", "com"][1..] == afoo;
    assert ["a", "b", "foo", "com"][1..][1..] == foo;
  }

  /** The refused cases of the `wildcard_subdomain_match` unit test. */
  lemma WildcardNonMatchVectors()
    ensures !Matches(["afoo", "com"], WildcardKey(["foo", "com"]))
    ensures !Matches(["b", "afoo", "com"], WildcardKey(["foo", "com"]))
    ensures !Matches(["bar", "com"], WildcardKey(["foo", "com"]))
    ensures !Matches(["foo", "com"], WildcardKey(["a", "foo", "com"]))
  {
    var foo: Name := ["foo", "com"];
    var afoo: Name := ["a", "foo", "com"];
    assert WildcardKey(foo)[1..] == foo;
    assert WildcardKey(afoo)[1..] == afoo;
    AnySuffixIsLabelSuffix(["afoo", "com"], foo);
    AnySuffixIsLabelSuffix(["b", "afoo", "com"], foo);
    assert ["b", "afoo", "com"][1..] != foo;
    AnySuffixIsLabelSuffix(["bar", "com"], foo);
    AnySuffixIsLabelSuffix(foo, afoo);
  }

  /** The `question_mark_subdomain_match` unit test. */
  lemma QuestionMarkMatchVectors()
    ensures Matches(["foo", "com"], QuestionKey(["foo", "com"]))
    ensures Matches(["a", "foo", "com"], QuestionKey(["foo", "com"]))
    ensures !Matches(["a", "b", "foo", "com"], QuestionKey(["foo", "com"]))
    ensures !Matches(["bar", "com"], QuestionKey(["foo", "com"]))
    ensures !Matches(["foo", "com"], QuestionKey(["a", "foo", "com"]))
    ensures !Matches(["afoo", "com"], QuestionKey(["foo", "com"]))
  {
    var foo: Name := ["foo", "com"];
    assert QuestionKey(foo)[1..] == foo;
    assert QuestionKey(["a", "foo", "com"])[1..] == ["a", "foo", "com"];
    assert ["a", "b", "foo", "com"][1..] != foo;
  }

  /** The `get_description` unit tests: `*.foo.com`, `?.bar.com` and `baz.com` in one table. */
  lemma GetDescriptionTestVectors(foo: ResourceDescriptionDns, bar: ResourceDescriptionDns, baz: ResourceDescriptionDns)
    ensures var t := map[WildcardKey(["foo", "com"]) := foo, QuestionKey(["bar", "com"]) := bar, ["baz", "com"] := baz];
            && GetDescription(["a", "foo", "com"], t) == Some(foo)
            && GetDescription(["foo", "com"], t) == Some(foo)
            && GetDescription(["a", "b", "foo", "com"], t) == Some(foo)
            && GetDescription(["oo", "com"], t) == None
            && GetDescription(["a", "bar", "com"], t) == Some(bar)
            && GetDescription(["bar", "com"], t) == Some(bar)
            && GetDescription(["a", "b", "bar", "com"], t) == None
            && GetDescription(["baz", "com"], t) == Some(baz)
            && GetDescription(["a", "baz", "com"], t) == None
            && GetDescription(["a", "b", "baz", "com"], t) == None
  {
    var t := map[WildcardKey(["foo", "com"]) := foo, QuestionKey(["bar", "com"]) := bar, ["baz", "com"] := baz];
    assert ["a", "foo", "com"][1..] == ["foo", "com"];
    assert ["a", "b", "foo", "com"][1..][1..] == ["foo", "com"];
    assert ["a", "bar", "com"][1..] == ["bar", "com"];
    assert ["a", "b", "bar", "com"][1..] == ["b", "bar", "com"];
    assert ["a", "b", "bar", "com"][1..][1..] == ["bar", "com"];
    assert ["a", "b", "bar", "com"][1..][1..][1..] == ["com"];
    assert ["a", "baz", "com"][1..] == ["baz", "com"];
    assert ["a", "baz", "com"][1..][1..] == ["com"];
    assert ["a", "b", "baz", "com"][1..] == ["b", "baz", "com"];
    assert ["a", "b", "baz", "com"][1..][1..] == ["baz", "com"];
    assert ["a", "b", "baz", "com"][1..][1..][1..] == ["com"];
    assert ["oo", "com"][1..] == ["com"];
    assert ["com"][1..] == [];
    assert WildcardKey(["foo", "com"]) == ["*", "foo", "com"];
    assert QuestionKey(["bar", "com"]) == ["?", "bar", "com"];
    assert ["*", "foo", "com"] != ["?", "bar", "com"] by { assert "*" != "?"; }
    assert ["*", "foo", "com"] != ["baz", "com"];
    assert t.Keys == {["*", "foo", "com"], ["?", "bar", "com"], ["baz", "com"]};
    assert t[WildcardKey(["foo", "com"])] == foo;
    assert ["*", "com"] !in t.Keys by { assert "*" != "baz"; }
    assert ["*"] !in t.Keys;
    assert WildcardKey(["com"]) == ["*", "com"];
    assert WildcardKey([]) == ["*"];
    assert WildcardKey(["oo", "com"]) == ["*", "oo", "com"];
    assert ["*", "oo", "com"] !in t.Keys by { assert "oo" != "foo"; assert "*" != "?"; }
    assert WildcardKey(["bar", "com"]) == ["*", "bar", "com"];
    assert ["*", "bar", "com"] !in t.Keys by { assert "bar" != "foo"; assert "*" != "?"; }
    assert WildcardKey(["baz", "com"]) == ["*", "baz", "com"];
    assert ["*", "baz", "com"] !in t.Keys by { assert "baz" != "foo"; assert "*" != "?"; }
    assert FindWildcard(["foo", "com"], t) == Some(foo);
    assert FindWildcard(["a", "foo", "com"], t) == Some(foo);
    assert FindWildcard([], t) == None;
    assert FindWildcard(["com"], t) == None;
    assert FindWildcard(["oo", "com"], t) == None;
    assert FindWildcard(["bar", "com"], t) == None;
    assert FindWildcard(["b", "bar", "com"], t) == None;
    assert FindWildcard(["a", "b", "bar", "com"], t) == None;
    assert FindWildcard(["baz", "com"], t) == None;
    assert FindWildcard(["a", "baz", "com"], t) == None;
    assert ["a", "foo", "com"] !in t.Keys && ["foo", "com"] !in t.Keys && ["oo", "com"] !in t.Keys;
    assert ["a", "baz", "com"] !in t.Keys;
    assert QuestionKey(["a", "foo", "com"]) == ["?", "a", "foo", "com"];
    assert QuestionKey(["foo", "com"]) == ["?", "foo", "com"];
    assert ["?", "foo", "com"] !in t.Keys by { assert "foo" != "bar"; }
    assert QuestionKey(["com"]) == ["?", "com"];
    assert ["?", "com"] !in t.Keys by { assert "?" != "baz"; }
    assert QuestionKey(["oo", "com"]) == ["?", "oo", "com"];
    assert ["?", "oo", "com"] !in t.Keys by { assert "oo" != "bar"; }
    assert QuestionKey(["baz", "com"]) == ["?", "baz", "com"];
    assert ["?", "baz", "com"] !in t.Keys by { assert "baz" != "bar"; }
  }

  // -------------------------------------------- get_description as written

  /**
   * Prefixing `d` with a one-character label (`RelativeDname::chain`)
   * succeeds only while the result stays within 255 octets.
   */
  predicate Chains(d: Name)
  {
    WireLen(d) + 2 <= MaxNameLen
  }

  /** The suffix search as written: a suffix whose `*.` key cannot be formed is skipped. */
  function FindWildcardAsWritten(name: Name, table: ResourceTable): Option<ResourceDescriptionDns>
    decreases |name|
  {
    if Chains(name) && WildcardKey(name) in table then Some(table[WildcardKey(name)])
    else if name == [] then None
    else FindWildcardAsWritten(name[1..], table)
  }

  /**
   * `get_description` as written: when the `?.name` or `?.parent` key cannot
   * be formed, the `.ok()?` returns None from the whole function, before the
   * wildcard keys are tried.
   */
  function GetDescriptionAsWritten(name: Name, table: ResourceTable): Option<ResourceDescriptionDns>
  {
    if name in table then Some(table[name])
    else if !Chains(name) then None
    else if QuestionKey(name) in table then Some(table[QuestionKey(name)])
    else if name != [] && !Chains(name[1..]) then None
    else if name != [] && QuestionKey(name[1..]) in table then Some(table[QuestionKey(name[1..])])
    else FindWildcardAsWritten(name, table)
  }

  lemma {:induction false} FindWildcardAsWrittenShort(name: Name, table: ResourceTable)
    requires Chains(name)
    ensures FindWildcardAsWritten(name, table) == FindWildcard(name, table)
    decreases |name|
  {
    if name != [] {
      WireLenSuffix(name, 1);
      FindWildcardAsWrittenShort(name[1..], table);
    }
  }

  /** For every name of at most 253 octets the code as written and the corrected lookup agree. */
  lemma GetDescriptionAsWrittenShort(name: Name, table: ResourceTable)
    requires Chains(name)
    ensures GetDescriptionAsWritten(name, table) == GetDescription(name, table)
  {
    if name != [] {
      WireLenSuffix(name, 1);
    }
    FindWildcardAsWrittenShort(name, table);
  }

  /**
   * A 254-octet name under `*.foo.com` is not found by the code as written,
   * although the corrected lookup (and `is_subdomain`) match it.
   */
  lemma GetDescriptionLongNameMissed(d: ResourceDescriptionDns)
    ensures var name := [seq(52, _ => 'a'), seq(63, _ => 'b'), seq(63, _ => 'c'), seq(63, _ => 'd'), "foo", "com"];
            var table := map[WildcardKey(["foo", "com"]) := d];
            && ValidName(name)
            && GetDescriptionAsWritten(name, table) == None
            && GetDescription(name, table) == Some(d)
  {
    var name := [seq(52, _ => 'a'), seq(63, _ => 'b'), seq(63, _ => 'c'), seq(63, _ => 'd'), "foo", "com"];
    var table := map[WildcardKey(["foo", "com"]) := d];
    assert name[1..][1..][1..][1..] == ["foo", "com"];
    assert WireLen(name[1..][1..][1..][1..]) == 9;
    assert WireLen(name[1..][1..][1..]) == 73;
    assert WireLen(name[1..][1..]) == 137;
    assert WireLen(name[1..]) == 201;
    assert WireLen(name) == 254;
    assert ValidName(name);
    assert name !in table;
    assert QuestionKey(name) !in table;
    assert QuestionKey(name[1..]) !in table;
    assert WildcardKey(name) !in table;
    assert WildcardKey(name[1..]) !in table;
    assert WildcardKey(name[1..][1..]) !in table;
    assert WildcardKey(name[1..][1..][1..]) !in table;
    assert WildcardKey(name[1..][1..][1..][1..]) in table;
    assert !Chains(name);
    assert GetDescriptionAsWritten(name, table) == None;
    assert FindWildcard(name[1..][1..][1..][1..], table) == Some(d);
    assert FindWildcard(name[1..][1..][1..], table) == Some(d);
    assert FindWildcard(name[1..][1..], table) == Some(d);
    assert FindWildcard(name[1..], table) == Some(d);
    assert FindWildcard(name, table) == Some(d);
    assert GetDescription(name, table) == Some(d);
  }
}
