/**
 * The permission catalog: permissions are found by code ignoring case and
 * created, with the code as given, when no such permission exists.
 */
module Permissions {
  import opened Types

  /** A catalog row; `id` is the identity the database generates. */
  datatype Permission = Permission(id: nat, code: string)

  /** Upper-casing of one character (ASCII letters only). */
  function UpperChar(c: char): (u: char)
    ensures 'a' <= c <= 'z' ==> u as int == c as int - 32
    ensures !('a' <= c <= 'z') ==> u == c
  {
    if 'a' <= c <= 'z' then (c as int - 32) as char else c
  }

  /** The form two codes are compared in: they are the same permission when
      their upper-cased forms are equal. */
  function Fold(code: string): (f: string)
    ensures |f| == |code|
    ensures forall i :: 0 <= i < |code| ==> f[i] == UpperChar(code[i])
  {
    seq(|code|, i requires 0 <= i < |code| => UpperChar(code[i]))
  }

  /** Two characters are the same ignoring case: equal, or one is the
      lower-case ASCII letter of the other. */
  predicate SameCharIgnoringCase(c: char, d: char)
  {
    c == d || ('a' <= c <= 'z' && d as int == c as int - 32) || ('a' <= d <= 'z' && c as int == d as int - 32)
  }

  /** Two codes are the same ignoring case, character by character. */
  predicate SameIgnoringCase(a: string, b: string)
  {
    |a| == |b| && forall i :: 0 <= i < |a| ==> SameCharIgnoringCase(a[i], b[i])
  }

  /** Comparing folded codes is the same as comparing them ignoring case,
      in both directions. */
  lemma FoldEqualIgnoringCase(a: string, b: string)
    ensures Fold(a) == Fold(b) <==> SameIgnoringCase(a, b)
  {
  }

  /** Folding is idempotent: a folded code is its own folded form. */
  lemma FoldIdempotent(code: string)
    ensures Fold(Fold(code)) == Fold(code)
  {
  }

  /** The catalog's invariant: identities are the row numbers, and no two
      rows hold codes that differ only in case. */
  ghost predicate WellFormed(catalog: seq<Permission>)
  {
    && (forall i :: 0 <= i < |catalog| ==> catalog[i].id == i)
    && (forall i, j :: 0 <= i < j < |catalog| ==> Fold(catalog[i].code) != Fold(catalog[j].code))
  }

  /** The catalog query: the first row whose code equals `code` ignoring case. */
  function FindByCodeIgnoreCase(catalog: seq<Permission>, code: string): (r: Option<Permission>)
    ensures r.Some? ==> r.value in catalog && Fold(r.value.code) == Fold(code)
    ensures r.None? ==> forall p :: p in catalog ==> Fold(p.code) != Fold(code)
  {
    if catalog == [] then None
    else if Fold(catalog[0].code) == Fold(code) then Some(catalog[0])
    else FindByCodeIgnoreCase(catalog[1..], code)
  }

  /** Resolution of one code: the permission found ignoring case, or a new
      row holding the code as given. Returns the permission and the catalog
      afterwards. */
  function GetOrCreate(catalog: seq<Permission>, code: string): (r: (Permission, seq<Permission>))
    ensures Fold(r.0.code) == Fold(code)
    ensures r.0 in r.1
    ensures catalog <= r.1 && |r.1| <= |catalog| + 1
    ensures (exists p :: p in catalog && Fold(p.code) == Fold(code)) ==> r.1 == catalog && r.0 in catalog
    ensures (forall p :: p in catalog ==> Fold(p.code) != Fold(code)) ==>
              r.0 == Permission(|catalog|, code) && r.1 == catalog + [r.0]
  {
    match FindByCodeIgnoreCase(catalog, code)
    case Some(p) => (p, catalog)
    case None => (Permission(|catalog|, code), catalog + [Permission(|catalog|, code)])
  }

  /** Resolution of a list of codes in order, as the stream in `create` does. */
  function ResolveAll(catalog: seq<Permission>, codes: seq<string>): (r: (seq<Permission>, seq<Permission>))
    ensures |r.0| == |codes|
    ensures catalog <= r.1
    decreases |codes|
  {
    if codes == [] then ([], catalog)
    else
      var (p, next) := GetOrCreate(catalog, codes[0]);
      var (rest, last) := ResolveAll(next, codes[1..]);
      ([p] + rest, last)
  }

  /** Concatenation regroups freely. */
  lemma AppendRegroups(a: seq<Permission>, b: seq<Permission>, c: seq<Permission>)
    ensures (a + b) + c == a + (b + c)
  {
  }

  /** Resolving a non-empty list resolves its first code, then the rest
      against the catalog that left. */
  lemma ResolveAllStep(catalog: seq<Permission>, codes: seq<string>, i: nat)
    requires i < |codes|
    ensures ResolveAll(catalog, codes[i..]).0
         == [GetOrCreate(catalog, codes[i]).0] + ResolveAll(GetOrCreate(catalog, codes[i]).1, codes[i + 1..]).0
    ensures ResolveAll(catalog, codes[i..]).1
         == ResolveAll(GetOrCreate(catalog, codes[i]).1, codes[i + 1..]).1
  {
    assert codes[i..][0] == codes[i] && codes[i..][1..] == codes[i + 1..];
  }

  /** A code that matches no catalog row and no earlier code of the list
      gets a new row holding the code exactly as requested. */
  lemma {:induction false} NewCodeKeptAsGiven(catalog: seq<Permission>, codes: seq<string>, i: nat)
    requires i < |codes|
    requires forall p :: p in catalog ==> Fold(p.code) != Fold(codes[i])
    requires forall j :: 0 <= j < i ==> Fold(codes[j]) != Fold(codes[i])
    ensures ResolveAll(catalog, codes).0[i].code == codes[i]
    decreases i
  {
    var (p, next) := GetOrCreate(catalog, codes[0]);
    assert ResolveAll(catalog, codes).0 == [p] + ResolveAll(next, codes[1..]).0;
    if i > 0 {
      assert codes[1..][i - 1] == codes[i];
      forall q | q in next
        ensures Fold(q.code) != Fold(codes[i])
      {
        if q !in catalog {
          assert q == p;
        }
      }
      forall j | 0 <= j < i - 1
        ensures Fold(codes[1..][j]) != Fold(codes[1..][i - 1])
      {
        assert codes[1..][j] == codes[j + 1];
      }
      NewCodeKeptAsGiven(next, codes[1..], i - 1);
    }
  }

  /** The codes of a list of permissions, as a session shows them. */
  function Codes(ps: seq<Permission>): (s: set<string>)
    ensures forall p :: p in ps ==> p.code in s
    ensures forall c :: c in s ==> exists p :: p in ps && p.code == c
  {
    set p | p in ps :: p.code
  }

  /** In a well-formed catalog a row is the one and only match for any code
      equal to its own ignoring case. */
  lemma {:induction false} FindsTheMatchingRow(catalog: seq<Permission>, i: nat, code: string)
    requires WellFormed(catalog)
    requires i < |catalog| && Fold(catalog[i].code) == Fold(code)
    ensures FindByCodeIgnoreCase(catalog, code) == Some(catalog[i])
  {
    var r := FindByCodeIgnoreCase(catalog, code);
    assert r.Some? by {
      assert catalog[i] in catalog;
    }
    var j :| 0 <= j < |catalog| && catalog[j] == r.value;
    if j != i {
      if j < i {
        assert Fold(catalog[j].code) != Fold(catalog[i].code);
      } else {
        assert Fold(catalog[i].code) != Fold(catalog[j].code);
      }
    }
  }

  /** Resolution keeps the catalog well formed: the new row gets the next
      identity and its code is new ignoring case. */
  lemma GetOrCreateKeepsWellFormed(catalog: seq<Permission>, code: string)
    requires WellFormed(catalog)
    ensures WellFormed(GetOrCreate(catalog, code).1)
    ensures GetOrCreate(catalog, code).0.id < |GetOrCreate(catalog, code).1|
    ensures GetOrCreate(catalog, code).1[GetOrCreate(catalog, code).0.id] == GetOrCreate(catalog, code).0
  {
    var found := FindByCodeIgnoreCase(catalog, code);
    if found.None? {
      var next := catalog + [Permission(|catalog|, code)];
      forall i, j | 0 <= i < j < |next|
        ensures Fold(next[i].code) != Fold(next[j].code)
      {
        if j == |catalog| {
          assert next[i] == catalog[i] && catalog[i] in catalog;
        }
      }
    } else {
      var k :| 0 <= k < |catalog| && catalog[k] == found.value;
      assert found.value.id == k;
    }
  }

  /** A code resolved once resolves again, in any casing, to the same
      permission without adding a row. */
  lemma ResolveIsStable(catalog: seq<Permission>, code: string, again: string)
    requires WellFormed(catalog)
    requires Fold(again) == Fold(code)
    ensures GetOrCreate(GetOrCreate(catalog, code).1, again)
         == (GetOrCreate(catalog, code).0, GetOrCreate(catalog, code).1)
  {
    GetOrCreateKeepsWellFormed(catalog, code);
    var (p, next) := GetOrCreate(catalog, code);
    FindsTheMatchingRow(next, p.id, again);
  }

  /** Resolving "Admin" and then "admin" yields one permission. */
  lemma AdminThenLowerAdmin(catalog: seq<Permission>)
    requires WellFormed(catalog)
    ensures GetOrCreate(GetOrCreate(catalog, "Admin").1, "admin").0.id
         == GetOrCreate(catalog, "Admin").0.id
  {
    assert Fold("admin") == Fold("Admin");
    ResolveIsStable(catalog, "Admin", "admin");
  }

  /** Resolving a list keeps the catalog well formed, every resolved
      permission is in the final catalog and equals its requested code
      ignoring case. */
  lemma {:induction false} ResolveAllSound(catalog: seq<Permission>, codes: seq<string>)
    requires WellFormed(catalog)
    ensures WellFormed(ResolveAll(catalog, codes).1)
    ensures forall i :: 0 <= i < |codes| ==>
              ResolveAll(catalog, codes).0[i] in ResolveAll(catalog, codes).1
              && Fold(ResolveAll(catalog, codes).0[i].code) == Fold(codes[i])
    decreases |codes|
  {
    if codes != [] {
      var (p, next) := GetOrCreate(catalog, codes[0]);
      GetOrCreateKeepsWellFormed(catalog, codes[0]);
      ResolveAllSound(next, codes[1..]);
      var (rest, last) := ResolveAll(next, codes[1..]);
      assert ResolveAll(catalog, codes) == ([p] + rest, last);
      assert p in last by {
        assert next <= last;
        var k :| 0 <= k < |next| && next[k] == p;
        assert last[k] == p;
      }
      forall i | 0 <= i < |codes|
        ensures ([p] + rest)[i] in last && Fold(([p] + rest)[i].code) == Fold(codes[i])
      {
        if i > 0 {
          assert ([p] + rest)[i] == rest[i - 1] && codes[1..][i - 1] == codes[i];
        }
      }
    }
  }
}
