/** parseAgentIDFields of cmd/binds/agent.go: role and rig from an agent ID, scanning from the right. */
module AgentId {
  import opened Order

  /** The configured roles; an empty list and a missing one are the same. */
  datatype Roles = Roles(town: set<string>, rigLevel: set<string>, named: set<string>)

  /** strings.Split(s, "-"). */
  function Split(s: string): seq<string>
    decreases |s|
  {
    var i := Find(s, '-');
    if i == |s| then [s] else [s[..i]] + Split(s[i + 1..])
  }

  /** strings.Join(parts, "-"). */
  function Join(parts: seq<string>): string {
    if parts == [] then "" else if |parts| == 1 then parts[0] else parts[0] + "-" + Join(parts[1..])
  }

  /** The part at `k` is taken for a role: a rig-level one at the end, a named one before it. */
  predicate Hit(parts: seq<string>, k: nat, r: Roles)
    requires k < |parts|
  {
    if k == |parts| - 1 then parts[k] in r.rigLevel else parts[k] in r.named
  }

  /** The scan of lines 685 to 701 over parts[..i]. */
  function Scan(parts: seq<string>, i: nat, r: Roles): (string, string)
    requires i <= |parts|
  {
    if i == 0 then ("", "")
    else if Hit(parts, i - 1, r) then (parts[i - 1], Join(parts[..i - 1]))
    else Scan(parts, i - 1, r)
  }

  function Parse(id: string, r: Roles): (string, string) {
    var h := Find(id, '-');
    if h == 0 || h == |id| then ("", "")
    else
      var parts := Split(id[h + 1..]);
      if r.town == {} && r.rigLevel == {} && r.named == {} then ("", "")
      else if |parts| == 1 then (if parts[0] in r.town then (parts[0], "") else ("", ""))
      else Scan(parts, |parts|, r)
  }

  // Splitting and joining.

  lemma {:induction false} SplitNonEmpty(s: string)
    ensures Split(s) != []
    ensures forall p :: p in Split(s) ==> '-' !in p
    ensures Join(Split(s)) == s
    decreases |s|
  {
    var i := Find(s, '-');
    if i < |s| {
      SplitNonEmpty(s[i + 1..]);
      assert Split(s)[1..] == Split(s[i + 1..]);
      assert s == s[..i] + "-" + s[i + 1..];
    } else {
      assert s[..i] == s;
    }
  }

  lemma SplitAt(s: string, word: string, rest: string)
    requires s == word + "-" + rest && '-' !in word
    ensures Split(s) == [word] + Split(rest)
  {
    assert s[..|word|] == word && s[|word|] == '-' && s[|word| + 1..] == rest;
    FindAt(s, '-', |word|);
  }

  lemma Reassociate<T>(a: seq<T>, b: seq<T>, c: seq<T>)
    ensures a + (b + c) == a + b + c
  {
  }

  lemma {:induction false} SplitConcat(a: string, b: string)
    ensures Split(a + "-" + b) == Split(a) + Split(b)
    decreases |a|
  {
    var i := Find(a, '-');
    if i == |a| {
      assert a[..i] == a;
      SplitAt(a + "-" + b, a, b);
    } else {
      var word, rest := a[..i], a[i + 1..];
      assert a == word + "-" + rest;
      Reassociate(word + "-", rest, "-" + b);
      assert rest + ("-" + b) == rest + "-" + b && a + ("-" + b) == a + "-" + b;
      SplitAt(a + "-" + b, word, rest + "-" + b);
      SplitConcat(rest, b);
      SplitAt(a, word, rest);
      Reassociate([word], Split(rest), Split(b));
    }
  }

  lemma SplitWord(w: string)
    requires '-' !in w
    ensures Split(w) == [w]
  {
    assert w[..|w|] == w;
    FindAt(w, '-', |w|);
  }

  lemma {:induction false} JoinConcat(a: seq<string>, b: seq<string>)
    requires a != [] && b != []
    ensures Join(a + b) == Join(a) + "-" + Join(b)
  {
    if |a| == 1 {
      assert (a + b)[1..] == b;
    } else {
      assert (a + b)[1..] == a[1..] + b;
      JoinConcat(a[1..], b);
      assert a[0] + "-" + (Join(a[1..]) + "-" + Join(b)) == (a[0] + "-" + Join(a[1..])) + "-" + Join(b);
    }
  }

  /** An ID starts with a non-empty prefix without hyphens. */
  lemma ParsePrefixed(prefix: string, rest: string, r: Roles)
    requires prefix != "" && '-' !in prefix
    ensures Find(prefix + "-" + rest, '-') == |prefix| && (prefix + "-" + rest)[|prefix| + 1..] == rest
  {
    var id := prefix + "-" + rest;
    assert id[..|prefix|] == prefix && id[|prefix|] == '-';
    FindAt(id, '-', |prefix|);
  }

  // Parsing inverts printing.

  /** A town-level ID parses to its role exactly when that role is configured. */
  lemma ParseTownLevel(prefix: string, role: string, r: Roles)
    requires prefix != "" && '-' !in prefix && role != "" && '-' !in role
    ensures Parse(prefix + "-" + role, r) == (role, "") <==> role in r.town
  {
    ParsePrefixed(prefix, role, r);
    SplitWord(role);
  }

  /** A rig-level ID parses to its role and its rig, hyphens and all. */
  lemma ParseRigLevel(prefix: string, rig: string, role: string, r: Roles)
    requires prefix != "" && '-' !in prefix && '-' !in role && role in r.rigLevel
    ensures Parse(prefix + "-" + (rig + "-" + role), r) == (role, rig)
  {
    ParsePrefixed(prefix, rig + "-" + role, r);
    SplitConcat(rig, role);
    SplitWord(role);
    SplitNonEmpty(rig);
    var parts := Split(rig) + [role];
    assert parts[..|parts| - 1] == Split(rig);
  }

  /** No part of the name is taken for a role. */
  predicate PassedOver(name: seq<string>, r: Roles) {
    forall k :: 0 <= k < |name| ==> !Hit(name, k, r)
  }

  /** The scan runs down to `lo`, or stops at the first hit above it. */
  lemma {:induction false} ScanStops(parts: seq<string>, lo: nat, i: nat, r: Roles) returns (hit: Option<nat>)
    requires lo <= i <= |parts|
    ensures hit.None? ==> Scan(parts, i, r) == Scan(parts, lo, r) && forall k :: lo <= k < i ==> !Hit(parts, k, r)
    ensures hit.Some? ==> lo <= hit.value < i && Hit(parts, hit.value, r)
                          && Scan(parts, i, r) == (parts[hit.value], Join(parts[..hit.value]))
    decreases i
  {
    if i == lo {
      hit := None;
    } else if Hit(parts, i - 1, r) {
      hit := Some(i - 1);
    } else {
      hit := ScanStops(parts, lo, i - 1, r);
    }
  }

  lemma HitShifted(front: seq<string>, name: seq<string>, k: nat, r: Roles)
    requires k < |name|
    ensures Hit(front + name, |front| + k, r) == Hit(name, k, r)
  {
  }

  lemma JoinLonger(parts: seq<string>, i: nat, k: nat)
    requires 0 < i < k <= |parts|
    ensures |Join(parts[..k])| > |Join(parts[..i])|
  {
    assert parts[..k] == parts[..i] + parts[i..k];
    JoinConcat(parts[..i], parts[i..k]);
  }

  /** Over `rig-role-name` the scan finds `role` and `rig`, or stops inside the name. */
  lemma ScanNamed(rig: seq<string>, role: string, name: seq<string>, r: Roles) returns (hit: Option<nat>)
    requires role in r.named && name != []
    ensures var parts := rig + [role] + name;
            && (hit.None? <==> PassedOver(name, r))
            && (hit.None? ==> Scan(parts, |parts|, r) == (role, Join(rig)))
            && (hit.Some? ==>
                  && |rig| < hit.value < |parts|
                  && Scan(parts, |parts|, r) == (parts[hit.value], Join(parts[..hit.value])))
  {
    var front := rig + [role];
    var parts := front + name;
    hit := ScanStops(parts, |front|, |parts|, r);
    assert parts[|front| - 1] == role && parts[..|front| - 1] == rig;
    assert Hit(parts, |front| - 1, r);
    forall k | 0 <= k < |name| ensures Hit(name, k, r) == Hit(parts, |front| + k, r) { HitShifted(front, name, k, r); }
    if hit.Some? { assert Hit(name, hit.value - |front|, r); }
  }

  /** A named ID parses to its role and rig exactly when no part of the name is taken for a role. */
  lemma {:induction false} ParseNamed(prefix: string, rig: string, role: string, name: string, r: Roles)
    requires prefix != "" && '-' !in prefix && '-' !in role && role in r.named
    ensures Parse(prefix + "-" + (rig + "-" + (role + "-" + name)), r) == (role, rig) <==> PassedOver(Split(name), r)
  {
    ParsePrefixed(prefix, rig + "-" + (role + "-" + name), r);
    SplitConcat(rig, role + "-" + name);
    SplitConcat(role, name);
    SplitWord(role);
    SplitNonEmpty(rig);
    SplitNonEmpty(name);
    var parts := Split(rig) + [role] + Split(name);
    assert Split(rig) + ([role] + Split(name)) == parts;
    var hit := ScanNamed(Split(rig), role, Split(name), r);
    if hit.Some? {
      JoinLonger(parts, |Split(rig)|, hit.value);
      assert parts[..|Split(rig)|] == Split(rig);
    }
  }

  // Printing inverts parsing.

  /** How an ID is put together: `name` None for a role at the end, `rig` None for none. */
  function Show(prefix: string, rig: Option<string>, role: string, name: Option<string>): string {
    prefix + "-" + (if rig.Some? then rig.value + "-" else "") + role + (if name.Some? then "-" + name.value else "")
  }

  /** Any non-empty result rebuilds the ID, and its role is configured for the place it was found in. */
  lemma ParsedRebuilds(id: string, r: Roles) returns (prefix: string, rig: Option<string>, name: Option<string>)
    requires Parse(id, r) != ("", "")
    ensures prefix != "" && '-' !in prefix
    ensures var (role, rigText) := Parse(id, r);
            && id == Show(prefix, rig, role, name)
            && rigText == (if rig.Some? then rig.value else "")
            && role in (if name.Some? then r.named else if rig.Some? then r.rigLevel else r.town)
  {
    var h := Find(id, '-');
    var (role, rigText) := Parse(id, r);
    prefix := id[..h];
    var rest := id[h + 1..];
    assert id == prefix + "-" + rest;
    var parts := Split(rest);
    SplitNonEmpty(rest);
    if |parts| == 1 {
      rig, name := None, None;
    } else {
      var hit := ScanStops(parts, 0, |parts|, r);
      var k := hit.value;
      rig := if k == 0 then None else Some(Join(parts[..k]));
      name := if k == |parts| - 1 then None else Some(Join(parts[k + 1..]));
      Rebuild(parts, k);
      ShowRest(prefix, rest, rig, role, name);
    }
  }

  lemma ShowRest(prefix: string, rest: string, rig: Option<string>, role: string, name: Option<string>)
    requires rest == (if rig.Some? then rig.value + "-" else "") + role + (if name.Some? then "-" + name.value else "")
    ensures prefix + "-" + rest == Show(prefix, rig, role, name)
  {
  }

  lemma {:induction false} Rebuild(parts: seq<string>, k: nat)
    requires k < |parts|
    ensures Join(parts) == (if k == 0 then "" else Join(parts[..k]) + "-") + parts[k]
                           + (if k == |parts| - 1 then "" else "-" + Join(parts[k + 1..]))
  {
    var tail := parts[k..];
    RebuildTail(parts, k);
    if k > 0 {
      assert parts == parts[..k] + tail;
      JoinConcat(parts[..k], tail);
      Regroup(Join(parts[..k]), parts[k], if k == |parts| - 1 then "" else "-" + Join(parts[k + 1..]));
    } else {
      assert tail == parts;
    }
  }

  lemma Regroup(a: string, b: string, c: string)
    ensures a + "-" + (b + c) == (a + "-") + b + c
  {
  }

  lemma RebuildTail(parts: seq<string>, k: nat)
    requires k < |parts|
    ensures Join(parts[k..]) == parts[k] + (if k == |parts| - 1 then "" else "-" + Join(parts[k + 1..]))
  {
    if k < |parts| - 1 {
      assert parts[k..] == [parts[k]] + parts[k + 1..];
      JoinConcat([parts[k]], parts[k + 1..]);
    } else {
      assert parts[k..] == [parts[k]];
    }
  }

  // The code.

  /** sliceToSet: nil for an empty slice. */
  method SliceToSet(slice: seq<string>) returns (m: Option<set<string>>)
    ensures m == if slice == [] then None else Some(set x | x in slice)
  {
    if |slice| == 0 { return None; }
    var s: set<string> := {};
    for i := 0 to |slice|
      invariant s == set x | x in slice[..i]
    {
      s := s + {slice[i]};
    }
    assert slice[..|slice|] == slice;
    return Some(s);
  }

  predicate Has(m: Option<set<string>>, x: string) {
    m.Some? && x in m.value
  }

  /** parseAgentIDFields, with the configured lists. */
  method ParseAgentIDFields(id: string, town: seq<string>, rigLevel: seq<string>, named: seq<string>)
    returns (roleType: string, rig: string)
    ensures (roleType, rig) == Parse(id, Roles(set x | x in town, set x | x in rigLevel, set x | x in named))
  {
    ghost var r := Roles(set x | x in town, set x | x in rigLevel, set x | x in named);
    var hyphenIdx := Find(id, '-');
    if hyphenIdx == 0 || hyphenIdx == |id| { return "", ""; }
    var parts := Split(id[hyphenIdx + 1..]);
    var townLevelRoles := SliceToSet(town);
    var rigLevelRoles := SliceToSet(rigLevel);
    var namedRoles := SliceToSet(named);
    assert town != [] ==> town[0] in r.town;
    assert rigLevel != [] ==> rigLevel[0] in r.rigLevel;
    assert named != [] ==> named[0] in r.named;
    if townLevelRoles == None && rigLevelRoles == None && namedRoles == None { return "", ""; }
    if |parts| == 1 {
      if Has(townLevelRoles, parts[0]) { return parts[0], ""; }
      return "", "";
    }
    for i := |parts| downto 0
      invariant Parse(id, r) == Scan(parts, i, r)
    {
      var part := parts[i];
      if Has(rigLevelRoles, part) && i == |parts| - 1 { return part, Join(parts[..i]); }
      if Has(namedRoles, part) && i < |parts| - 1 { return part, Join(parts[..i]); }
    }
    return "", "";
  }
}
