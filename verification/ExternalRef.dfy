/** External dependency references of cmd/binds/dep.go: "external:<project>:<capability>". */
module ExternalRef {
  import opened Order

  const PREFIX := "external:"

  datatype Error = NotExternal | BadFormat | MissingProject | MissingCapability

  /** strings.SplitN(s, ":", n). */
  function SplitN(s: string, n: nat): seq<string>
    requires n >= 1
  {
    var i := Find(s, ':');
    if n == 1 || i == |s| then [s] else [s[..i]] + SplitN(s[i + 1..], n - 1)
  }

  predicate IsExternalRef(ref: string) {
    PREFIX <= ref
  }

  /** validateExternalRef: None is success. */
  function Validate(ref: string): Option<Error> {
    var parts := SplitN(ref, 3);
    if !IsExternalRef(ref) then Some(NotExternal)
    else if |parts| != 3 then Some(BadFormat)
    else if parts[1] == "" then Some(MissingProject)
    else if parts[2] == "" then Some(MissingCapability)
    else None
  }

  /** ParseExternalRef. */
  function Parse(ref: string): (string, string) {
    var parts := SplitN(ref, 3);
    if !IsExternalRef(ref) || |parts| != 3 then ("", "") else (parts[1], parts[2])
  }

  function Show(project: string, capability: string): string {
    PREFIX + project + ":" + capability
  }

  /** A reference splits at its prefix. */
  lemma SplitPrefix(ref: string)
    requires IsExternalRef(ref)
    ensures SplitN(ref, 3) == ["external"] + SplitN(ref[|PREFIX|..], 2)
    ensures ref == PREFIX + ref[|PREFIX|..]
  {
    assert PREFIX[..8] == "external" && PREFIX[8] == ':';
    assert ref[..8] == PREFIX[..8] && ref[8] == PREFIX[8];
    FindAt(ref, ':', 8);
  }

  lemma FindSplits(s: string, c: char)
    ensures c in s <==> Find(s, c) < |s|
    ensures c in s ==> s == s[..Find(s, c)] + [c] + s[Find(s, c) + 1..]
  {
    var i := Find(s, c);
    if i == |s| { assert s[..i] == s; } else { assert s[i] in s; }
  }

  lemma SplitTwo(s: string)
    ensures ':' !in s ==> SplitN(s, 2) == [s]
    ensures ':' in s ==> SplitN(s, 2) == [s[..Find(s, ':')], s[Find(s, ':') + 1..]]
  {
    FindSplits(s, ':');
    var i := Find(s, ':');
    if i < |s| { assert SplitN(s[i + 1..], 1) == [s[i + 1..]]; }
  }

  /** Parsing inverts printing: for every project without a colon and every capability, colons allowed. */
  lemma ParseShow(project: string, capability: string)
    requires ':' !in project
    ensures Parse(Show(project, capability)) == (project, capability)
    ensures Show(project, capability) == "external:" + project + ":" + capability
  {
    var rest := project + ":" + capability;
    SplitShown(project, capability);
    assert Show(project, capability) == PREFIX + rest;
    SplitPrefix(PREFIX + rest);
    assert (PREFIX + rest)[|PREFIX|..] == rest;
  }

  lemma SplitShown(project: string, capability: string)
    requires ':' !in project
    ensures SplitN(project + ":" + capability, 2) == [project, capability]
  {
    var s := project + ":" + capability;
    assert s[..|project|] == project && s[|project|] == ':' && s[|project| + 1..] == capability;
    FindAt(s, ':', |project|);
    SplitTwo(s);
  }

  /** And printing inverts parsing: what has two colons and the prefix is rebuilt from its parts; anything
      else parses to two empty strings. */
  lemma ShowParse(ref: string)
    ensures var (p, c) := Parse(ref);
            if IsExternalRef(ref) && ':' in ref[|PREFIX|..] then ref == Show(p, c) && ':' !in p else p == "" && c == ""
  {
    if IsExternalRef(ref) {
      var rest := ref[|PREFIX|..];
      SplitPrefix(ref);
      SplitTwo(rest);
      FindSplits(rest, ':');
      if ':' in rest {
        var p, c := rest[..Find(rest, ':')], rest[Find(rest, ':') + 1..];
        assert SplitN(ref, 3) == ["external", p, c];
        ShowRest(ref, rest, p, c);
      } else {
        assert |SplitN(ref, 3)| == 2;
      }
    }
  }

  lemma ShowRest(ref: string, rest: string, p: string, c: string)
    requires ref == PREFIX + rest && rest == p + ":" + c
    ensures ref == Show(p, c)
  {
    assert PREFIX + (p + ":" + c) == PREFIX + p + ":" + c;
  }

  /** Exactly the printed forms of a non-empty colon-free project and a non-empty capability are valid, and
      those are exactly the references both of whose parsed parts are non-empty. */
  lemma ValidIffShown(ref: string)
    ensures Validate(ref).None? <==> exists p, c :: p != "" && ':' !in p && c != "" && ref == Show(p, c)
    ensures Validate(ref).None? <==> Parse(ref).0 != "" && Parse(ref).1 != ""
  {
    ShowParse(ref);
    if p, c :| p != "" && ':' !in p && c != "" && ref == Show(p, c) { ParseShow(p, c); }
  }

  /** Which error an invalid reference gets. */
  lemma ErrorsExact(ref: string)
    ensures Validate(ref) == Some(NotExternal) <==> !IsExternalRef(ref)
    ensures Validate(ref) == Some(BadFormat) <==> IsExternalRef(ref) && ':' !in ref[|PREFIX|..]
    ensures Validate(ref) == Some(MissingProject) <==> "external::" <= ref
    ensures Validate(ref) == Some(MissingCapability) <==> exists p :: p != "" && ':' !in p && ref == Show(p, "")
  {
    ShowParse(ref);
    if IsExternalRef(ref) {
      SplitPrefix(ref);
      var rest := ref[|PREFIX|..];
      SplitTwo(rest);
      FindSplits(rest, ':');
      assert "external::" <= ref <==> rest != "" && rest[0] == ':' by {
        assert "external::" == PREFIX + ":";
        if rest != "" && rest[0] == ':' { assert rest == ":" + rest[1..]; }
      }
    }
    if p :| p != "" && ':' !in p && ref == Show(p, "") { ParseShow(p, ""); }
  }
}
