/**
 * The CORS `origin` predicate of the HTTP server (qr-manager/backend/src/index.ts).
 *
 * An allowed-origin entry without `*` is compared for exact equality. An entry with `*`
 * is turned into a regular expression by replacing every `*` with `.*`, anchored with
 * `^` and `$`, and tested against the origin. Nothing else is escaped, so a `.` of the
 * entry is the regular-expression wildcard.
 *
 * The model follows that construction step by step: `Translate` is the `replace`,
 * `ParseRegex` is what `new RegExp` makes of the result, `MatchAtoms` is the anchored
 * `test`. `Denotes` is an independent, declarative reading of a pattern, and the
 * lemmas tie the two together.
 */
module Cors {
  import opened Prelude

  /** The characters that `.` in a JavaScript regular expression without the `s` flag does not match. */
  predicate IsLineTerminator(c: char) {
    c == '\n' || c == '\r' || c == '\U{2028}' || c == '\U{2029}'
  }


  /** The characters one regular-expression atom accepts: a given character, or `.`. */
  datatype CharClass = Exactly(c: char) | AnyButLineTerminator

  predicate Accepts(cls: CharClass, c: char) {
    match cls
    case Exactly(d) => c == d
    case AnyButLineTerminator => !IsLineTerminator(c)
  }

  /** One piece of a parsed pattern: an atom on its own, or an atom followed by `*`. */
  datatype Atom = One(cls: CharClass) | Many(cls: CharClass)

  /** The global `replace` of every `*` in the entry by `.*`. */
  function Translate(entry: string): (r: string)
    ensures |r| > 0 ==> r[0] != '*'
    ensures '*' !in entry ==> r == entry
  {
    if entry == [] then []
    else (if entry[0] == '*' then ".*" else [entry[0]]) + Translate(entry[1..])
  }

  /**
   * What `new RegExp(...)` builds from a pattern made only of literal characters, `.`
   * and `*`: `None` when it throws ("nothing to repeat": a `*` with no atom before it).
   */
  function ParseRegex(r: string): (a: Option<seq<Atom>>)
    ensures |r| > 0 && r[0] == '*' ==> a.None?
    ensures '*' !in r ==> a.Some? && |a.value| == |r| && forall i :: 0 <= i < |r| ==> a.value[i].One?
    ensures a.Some? ==> |a.value| <= |r|
    decreases |r|
  {
    if r == [] then Some([])
    else if r[0] == '*' then None
    else
      var cls := if r[0] == '.' then AnyButLineTerminator else Exactly(r[0]);
      if |r| > 1 && r[1] == '*' then
        match ParseRegex(r[2..])
        case None => None
        case Some(rest) => Some([Many(cls)] + rest)
      else
        match ParseRegex(r[1..])
        case None => None
        case Some(rest) => Some([One(cls)] + rest)
  }

  /** How many atoms of the pattern stand alone, each taking exactly one character. */
  function Singles(p: seq<Atom>): (n: nat)
    ensures n <= |p|
  {
    if p == [] then 0 else (if p[0].One? then 1 else 0) + Singles(p[1..])
  }

  /** `regex.test(s)` for the regex `^p$`: the whole of `s` is matched by `p`, with backtracking. */
  predicate MatchAtoms(p: seq<Atom>, s: string)
    ensures MatchAtoms(p, s) ==> Singles(p) <= |s|
    ensures MatchAtoms(p, s) && Singles(p) == |p| ==> |s| == |p|
    decreases |p| + |s|
  {
    if p == [] then s == []
    else match p[0]
      case One(cls) => s != [] && Accepts(cls, s[0]) && MatchAtoms(p[1..], s[1..])
      case Many(cls) =>
        MatchAtoms(p[1..], s) || (s != [] && Accepts(cls, s[0]) && MatchAtoms(p, s[1..]))
  }

  /** Every character of `w` is accepted by `cls`. */
  predicate AllAccepted(cls: CharClass, w: string) {
    forall j :: 0 <= j < |w| ==> Accepts(cls, w[j])
  }

  /** No character of `w` is a line terminator: what `.*` can take. */
  predicate SingleLine(w: string) {
    AllAccepted(AnyButLineTerminator, w)
  }

  /** The strings a pattern stands for, read declaratively: `x*` takes any run of characters `x` accepts. */
  ghost predicate Denotes(p: seq<Atom>, s: string)
    decreases |p|
  {
    if p == [] then s == []
    else match p[0]
      case One(cls) => |s| >= 1 && Accepts(cls, s[0]) && Denotes(p[1..], s[1..])
      case Many(cls) => exists k :: 0 <= k <= |s| && AllAccepted(cls, s[..k]) && Denotes(p[1..], s[k..])
  }

  /** How a wildcard entry reads, character by character: `*` is any run, `.` any one character. */
  function AtomOf(c: char): Atom {
    if c == '*' then Many(AnyButLineTerminator)
    else if c == '.' then One(AnyButLineTerminator)
    else One(Exactly(c))
  }

  function Compile(entry: string): (p: seq<Atom>)
    ensures |p| == |entry|
  {
    seq(|entry|, i requires 0 <= i < |entry| => AtomOf(entry[i]))
  }

  /** Whatever the matcher accepts, the pattern stands for. */
  lemma {:induction false} MatchAtomsSound(p: seq<Atom>, s: string)
    requires MatchAtoms(p, s)
    ensures Denotes(p, s)
    decreases |p| + |s|
  {
    if p != [] {
      match p[0]
      case One(cls) =>
        MatchAtomsSound(p[1..], s[1..]);
      case Many(cls) =>
        assert p == [Many(cls)] + p[1..];
        if MatchAtoms(p[1..], s) {
          MatchAtomsSound(p[1..], s);
          assert s[0..] == s;
          ConsManyIntro(cls, p[1..], s, 0);
        } else {
          MatchAtomsSound(p, s[1..]);
          StarTakesOneLess(cls, p[1..], s);
        }
    }
  }

  /** Whatever the pattern stands for, the matcher accepts. */
  lemma {:induction false} MatchAtomsComplete(p: seq<Atom>, s: string)
    requires Denotes(p, s)
    ensures MatchAtoms(p, s)
    decreases |p| + |s|
  {
    if p != [] {
      match p[0]
      case One(cls) =>
        MatchAtomsComplete(p[1..], s[1..]);
      case Many(cls) =>
        assert p == [Many(cls)] + p[1..];
        var k := ConsManyElim(cls, p[1..], s);
        if k == 0 {
          assert s[0..] == s;
          MatchAtomsComplete(p[1..], s);
        } else {
          StarTakesOneMore(cls, p[1..], s, k);
          MatchAtomsComplete(p, s[1..]);
        }
    }
  }

  /** A star that took `k > 0` characters still stands for the rest once the first is dropped. */
  lemma StarTakesOneMore(cls: CharClass, rest: seq<Atom>, s: string, k: nat)
    requires 0 < k <= |s| && AllAccepted(cls, s[..k]) && Denotes(rest, s[k..])
    ensures Accepts(cls, s[0]) && Denotes([Many(cls)] + rest, s[1..])
  {
    var t := s[1..];
    AllAcceptedTail(cls, s[..k]);
    assert s[..k][1..] == t[..k - 1];
    assert t[k - 1..] == s[k..];
    ConsManyIntro(cls, rest, t, k - 1);
  }

  /** A star that stands for all but the first character, which `cls` accepts, stands for all of it. */
  lemma StarTakesOneLess(cls: CharClass, rest: seq<Atom>, s: string)
    requires |s| > 0 && Accepts(cls, s[0]) && Denotes([Many(cls)] + rest, s[1..])
    ensures Denotes([Many(cls)] + rest, s)
  {
    var k := ConsManyElim(cls, rest, s[1..]);
    AllAcceptedCons(cls, s[0], s[1..][..k]);
    ConsSlices(s, k);
    ConsManyIntro(cls, rest, s, k + 1);
  }

  /** A single atom that takes the first character, followed by a match of `q`. */
  lemma ConsOneIntro(cls: CharClass, q: seq<Atom>, s: string)
    requires |s| >= 1 && Accepts(cls, s[0]) && Denotes(q, s[1..])
    ensures Denotes([One(cls)] + q, s)
  {
    DenotesCons(One(cls), q, s);
  }

  /** Cutting `s` after `k + 1` characters is cutting its tail after `k`. */
  lemma ConsSlices<T>(s: seq<T>, k: nat)
    requires k < |s|
    ensures s[..k + 1] == [s[0]] + s[1..][..k] && s[k + 1..] == s[1..][k..]
  {
  }

  /** Cutting `s + t` inside `s`. */
  lemma AppendSlices<T>(s: seq<T>, t: seq<T>, k: nat)
    requires k <= |s|
    ensures (s + t)[..k] == s[..k] && (s + t)[k..] == s[k..] + t
  {
  }

  /** Cutting the first `k + i` characters of `u` at `k`. */
  lemma PrefixSlices<T>(u: seq<T>, k: nat, i: nat)
    requires k + i <= |u|
    ensures u[..k + i][..k] == u[..k] && u[..k + i][k..] == u[k..][..i] && u[k + i..] == u[k..][i..]
  {
  }

  /** Cutting `o` at `i` and `i + k` is cutting `o[i..]` at `k`. */
  lemma SubSlices<T>(o: seq<T>, i: nat, k: nat)
    requires i + k <= |o|
    ensures o[i..i + k] == o[i..][..k] && o[i + k..] == o[i..][k..]
  {
  }

  /** A run every character of which `cls` accepts, less its first character. */
  lemma AllAcceptedTail(cls: CharClass, w: string)
    requires |w| > 0 && AllAccepted(cls, w)
    ensures Accepts(cls, w[0]) && AllAccepted(cls, w[1..])
  {
    forall j | 0 <= j < |w[1..]|
      ensures Accepts(cls, w[1..][j])
    {
      assert w[1..][j] == w[j + 1];
    }
  }

  /** A run every character of which `cls` accepts, with one more such character in front. */
  lemma AllAcceptedCons(cls: CharClass, c: char, w: string)
    requires Accepts(cls, c) && AllAccepted(cls, w)
    ensures AllAccepted(cls, [c] + w)
  {
    var v := [c] + w;
    forall j | 0 <= j < |v|
      ensures Accepts(cls, v[j])
    {
      if j > 0 { assert v[j] == w[j - 1]; }
    }
  }

  /** A starred atom that takes the first `k` characters, followed by a match of `q`. */
  lemma ConsManyIntro(cls: CharClass, q: seq<Atom>, s: string, k: nat)
    requires k <= |s| && AllAccepted(cls, s[..k]) && Denotes(q, s[k..])
    ensures Denotes([Many(cls)] + q, s)
  {
    DenotesCons(Many(cls), q, s);
  }

  /** The matcher decides the declarative reading. */
  lemma MatchAtomsDenotes(p: seq<Atom>, s: string)
    ensures MatchAtoms(p, s) <==> Denotes(p, s)
  {
    if MatchAtoms(p, s) { MatchAtomsSound(p, s); }
    if Denotes(p, s) { MatchAtomsComplete(p, s); }
  }

  /** `new RegExp` never throws on a translated entry, and reads it as `Compile` does. */
  lemma {:induction false} ParseTranslate(entry: string)
    ensures ParseRegex(Translate(entry)) == Some(Compile(entry))
  {
    if entry != [] {
      var tail, atoms := Translate(entry[1..]), Compile(entry[1..]);
      ParseTranslate(entry[1..]);
      CompileCons(entry);
      if entry[0] == '*' {
        ParseStarPrefix(tail, atoms);
      } else {
        ParseCharPrefix(entry[0], tail, atoms);
      }
    }
  }

  /** `Compile` reads an entry one character at a time. */
  lemma CompileCons(entry: string)
    requires entry != []
    ensures Compile(entry) == [AtomOf(entry[0])] + Compile(entry[1..])
  {
  }

  /** `.*` in front of a pattern adds one starred wildcard to what it parses to. */
  lemma ParseStarPrefix(tail: string, atoms: seq<Atom>)
    requires ParseRegex(tail) == Some(atoms)
    ensures ParseRegex(".*" + tail) == Some([Many(AnyButLineTerminator)] + atoms)
  {
    assert (".*" + tail)[2..] == tail;
  }

  /** A character other than `*`, in front of a pattern that does not start with `*`, adds one atom. */
  lemma ParseCharPrefix(c: char, tail: string, atoms: seq<Atom>)
    requires c != '*' && (|tail| > 0 ==> tail[0] != '*')
    requires ParseRegex(tail) == Some(atoms)
    ensures ParseRegex([c] + tail) == Some([AtomOf(c)] + atoms)
  {
    assert ([c] + tail)[1..] == tail;
  }

  /**
   * One entry of the allowed list against a present origin; `None` when the
   * predicate would throw. An entry with `*` allows exactly the origins its
   * compiled pattern stands for, and never throws.
   */
  function EntryAllows(entry: string, origin: string): (r: Option<bool>)
    ensures '*' in entry ==> r == Some(Denotes(Compile(entry), origin))
    ensures '*' !in entry ==> r == Some(entry == origin)
  {
    if '*' in entry then
      ParseTranslate(entry);
      match ParseRegex(Translate(entry))
      case Some(atoms) =>
        MatchAtomsDenotes(atoms, origin);
        Some(MatchAtoms(atoms, origin))
      case None => None
    else Some(entry == origin)
  }

  /** `allowedOrigins.some(...)`: entries are tried in order and the first that allows wins. */
  function AnyAllows(entries: seq<string>, origin: string): (r: Option<bool>)
    ensures r == Some(exists i :: 0 <= i < |entries| && EntryAllows(entries[i], origin) == Some(true))
  {
    if entries == [] then Some(false)
    else match EntryAllows(entries[0], origin)
      case None => None
      case Some(true) => Some(true)
      case Some(false) =>
        var rest := AnyAllows(entries[1..], origin);
        SomeSkipsRefusal(entries, origin);
        rest
  }

  /** An entry that refuses the origin does not change whether some entry allows it. */
  lemma SomeSkipsRefusal(entries: seq<string>, origin: string)
    requires entries != [] && EntryAllows(entries[0], origin) == Some(false)
    ensures (exists i :: 0 <= i < |entries| && EntryAllows(entries[i], origin) == Some(true))
      <==> (exists i :: 0 <= i < |entries[1..]| && EntryAllows(entries[1..][i], origin) == Some(true))
  {
    if exists i :: 0 <= i < |entries| && EntryAllows(entries[i], origin) == Some(true) {
      var i :| 0 <= i < |entries| && EntryAllows(entries[i], origin) == Some(true);
      assert i > 0 && entries[i] == entries[1..][i - 1];
    }
    if exists i :: 0 <= i < |entries[1..]| && EntryAllows(entries[1..][i], origin) == Some(true) {
      var i :| 0 <= i < |entries[1..]| && EntryAllows(entries[1..][i], origin) == Some(true);
      assert entries[1..][i] == entries[i + 1];
    }
  }

  /** `allowedOrigins` when `ALLOWED_ORIGINS` is not set. */
  const DefaultAllowedOrigins: seq<string> := ["*"]

  /**
   * The `origin` option: the value passed to `callback(null, ...)`, or `None` had it
   * thrown. A missing or empty origin is allowed without looking at the list.
   */
  function OriginAllowed(origin: Option<string>, allowed: seq<string>): (r: Option<bool>)
    ensures r != None
    ensures origin == None || origin == Some("") ==> r == Some(true)
  {
    if origin == None || origin.value == "" then Some(true)
    else AnyAllows(allowed, origin.value)
  }
  // ---------------------------------------------------------------------------
  // Composition of patterns

  lemma {:induction false} DenotesAppend(p: seq<Atom>, q: seq<Atom>, s: string, t: string)
    requires Denotes(p, s) && Denotes(q, t)
    ensures Denotes(p + q, s + t)
    decreases |p|, 1
  {
    if p == [] {
      assert p + q == q && s + t == t;
    } else {
      var a, rest := p[0], p[1..];
      assert p == [a] + rest;
      assert p + q == [a] + (rest + q);
      match a
      case One(cls) =>
        AppendOne(cls, rest, q, s, t);
      case Many(cls) =>
        AppendMany(cls, rest, q, s, t);
    }
  }

  /** `DenotesAppend` for a pattern that starts with a single atom. */
  lemma {:induction false} AppendOne(cls: CharClass, rest: seq<Atom>, q: seq<Atom>, s: string, t: string)
    requires Denotes([One(cls)] + rest, s) && Denotes(q, t)
    ensures Denotes([One(cls)] + (rest + q), s + t)
    decreases |rest| + 1, 0
  {
    ConsOneElim(cls, rest, s);
    DenotesAppend(rest, q, s[1..], t);
    AppendSlices(s, t, 1);
    ConsOneIntro(cls, rest + q, s + t);
  }

  /** `DenotesAppend` for a pattern that starts with a starred atom. */
  lemma {:induction false} AppendMany(cls: CharClass, rest: seq<Atom>, q: seq<Atom>, s: string, t: string)
    requires Denotes([Many(cls)] + rest, s) && Denotes(q, t)
    ensures Denotes([Many(cls)] + (rest + q), s + t)
    decreases |rest| + 1, 0
  {
    var k := ConsManyElim(cls, rest, s);
    DenotesAppend(rest, q, s[k..], t);
    AppendSlices(s, t, k);
    ConsManyIntro(cls, rest + q, s + t, k);
  }

  /** Where a match of `p + q` passes from `p` to `q`. */
  lemma {:induction false} DenotesSplit(p: seq<Atom>, q: seq<Atom>, u: string) returns (i: nat)
    requires Denotes(p + q, u)
    ensures i <= |u| && Denotes(p, u[..i]) && Denotes(q, u[i..])
    decreases |p|, 1
  {
    if p == [] {
      assert p + q == q && u[..0] == [] && u[0..] == u;
      i := 0;
    } else {
      var a, rest := p[0], p[1..];
      assert p == [a] + rest;
      assert p + q == [a] + (rest + q);
      match a
      case One(cls) =>
        i := SplitOne(cls, rest, q, u);
      case Many(cls) =>
        i := SplitMany(cls, rest, q, u);
    }
  }

  /** `DenotesSplit` for a pattern that starts with a single atom. */
  lemma {:induction false} SplitOne(cls: CharClass, rest: seq<Atom>, q: seq<Atom>, u: string) returns (i: nat)
    requires Denotes([One(cls)] + (rest + q), u)
    ensures i <= |u| && Denotes([One(cls)] + rest, u[..i]) && Denotes(q, u[i..])
    decreases |rest| + 1, 0
  {
    ConsOneElim(cls, rest + q, u);
    var i' := DenotesSplit(rest, q, u[1..]);
    SplitAfterOne(cls, rest, q, u, i');
    i := i' + 1;
  }

  /** `DenotesSplit` for a pattern that starts with a starred atom. */
  lemma {:induction false} SplitMany(cls: CharClass, rest: seq<Atom>, q: seq<Atom>, u: string) returns (i: nat)
    requires Denotes([Many(cls)] + (rest + q), u)
    ensures i <= |u| && Denotes([Many(cls)] + rest, u[..i]) && Denotes(q, u[i..])
    decreases |rest| + 1, 0
  {
    var k := ConsManyElim(cls, rest + q, u);
    var i' := DenotesSplit(rest, q, u[k..]);
    SplitAfterMany(cls, rest, q, u, k, i');
    i := k + i';
  }

  /** What a match of a pattern led by a single atom consists of. */
  lemma ConsOneElim(cls: CharClass, q: seq<Atom>, s: string)
    requires Denotes([One(cls)] + q, s)
    ensures |s| >= 1 && Accepts(cls, s[0]) && Denotes(q, s[1..])
  {
    DenotesCons(One(cls), q, s);
  }

  /** How many characters the leading starred atom takes in a match. */
  lemma ConsManyElim(cls: CharClass, q: seq<Atom>, s: string) returns (k: nat)
    requires Denotes([Many(cls)] + q, s)
    ensures k <= |s| && AllAccepted(cls, s[..k]) && Denotes(q, s[k..])
  {
    DenotesCons(Many(cls), q, s);
    k :| 0 <= k <= |s| && AllAccepted(cls, s[..k]) && Denotes(q, s[k..]);
  }

  /** The step of `DenotesSplit` for a leading single atom. */
  lemma SplitAfterOne(cls: CharClass, rest: seq<Atom>, q: seq<Atom>, u: string, i': nat)
    requires |u| >= 1 && Accepts(cls, u[0])
    requires i' <= |u[1..]| && Denotes(rest, u[1..][..i']) && Denotes(q, u[1..][i'..])
    ensures Denotes([One(cls)] + rest, u[..i' + 1]) && Denotes(q, u[i' + 1..])
  {
    PrefixSlices(u, 1, i');
    ConsOneIntro(cls, rest, u[..i' + 1]);
  }

  /** The step of `DenotesSplit` for a leading starred atom that took `k` characters. */
  lemma SplitAfterMany(cls: CharClass, rest: seq<Atom>, q: seq<Atom>, u: string, k: nat, i': nat)
    requires k <= |u| && AllAccepted(cls, u[..k])
    requires i' <= |u[k..]| && Denotes(rest, u[k..][..i']) && Denotes(q, u[k..][i'..])
    ensures Denotes([Many(cls)] + rest, u[..k + i']) && Denotes(q, u[k + i'..])
  {
    PrefixSlices(u, k, i');
    ConsManyIntro(cls, rest, u[..k + i'], k);
  }

  /** `o` is a match of `p` up to `i`, a single-line run up to `j`, then a match of `q`. */
  ghost predicate SplitsAround(p: seq<Atom>, q: seq<Atom>, o: string, i: int, j: int) {
    0 <= i <= j <= |o| && Denotes(p, o[..i]) && SingleLine(o[i..j]) && Denotes(q, o[j..])
  }

  /** A `*` between two patterns: the origin splits into a part for each, with any single-line run between. */
  lemma StarBetween(p: seq<Atom>, q: seq<Atom>, o: string)
    ensures Denotes(p + [Many(AnyButLineTerminator)] + q, o) <==> exists i, j :: SplitsAround(p, q, o, i, j)
  {
    if Denotes(p + [Many(AnyButLineTerminator)] + q, o) {
      var i, j := StarBetweenSplit(p, q, o);
      assert SplitsAround(p, q, o, i, j);
    }
    if exists i, j :: SplitsAround(p, q, o, i, j) {
      var i, j :| SplitsAround(p, q, o, i, j);
      StarBetweenJoin(p, q, o, i, j);
    }
  }

  /** `Denotes` on a pattern with a known first atom. */
  lemma DenotesCons(a: Atom, q: seq<Atom>, s: string)
    ensures Denotes([a] + q, s) <==> match a
      case One(cls) => |s| >= 1 && Accepts(cls, s[0]) && Denotes(q, s[1..])
      case Many(cls) => exists k :: 0 <= k <= |s| && AllAccepted(cls, s[..k]) && Denotes(q, s[k..])
  {
    assert ([a] + q)[0] == a && ([a] + q)[1..] == q;
  }

  lemma StarBetweenSplit(p: seq<Atom>, q: seq<Atom>, o: string) returns (i: nat, j: nat)
    requires Denotes(p + [Many(AnyButLineTerminator)] + q, o)
    ensures i <= j <= |o| && Denotes(p, o[..i]) && SingleLine(o[i..j]) && Denotes(q, o[j..])
  {
    StarRegroup(p, q);
    i := DenotesSplit(p, [Many(AnyButLineTerminator)] + q, o);
    j := StarRunFrom(q, o, i);
  }

  /** Where the run of a `.*` that matches from `i` ends. */
  lemma StarRunFrom(q: seq<Atom>, o: string, i: nat) returns (j: nat)
    requires i <= |o| && Denotes([Many(AnyButLineTerminator)] + q, o[i..])
    ensures i <= j <= |o| && SingleLine(o[i..j]) && Denotes(q, o[j..])
  {
    var k := StarHead(q, o[i..]);
    SubSlices(o, i, k);
    j := i + k;
  }

  /** `p`, a `.*`, then `q`, grouped as `p` followed by the `.*` that leads `q`. */
  lemma StarRegroup(p: seq<Atom>, q: seq<Atom>)
    ensures p + [Many(AnyButLineTerminator)] + q == p + ([Many(AnyButLineTerminator)] + q)
  {
  }

  /** The run a leading `.*` takes. */
  lemma StarHead(q: seq<Atom>, s: string) returns (k: nat)
    requires Denotes([Many(AnyButLineTerminator)] + q, s)
    ensures k <= |s| && SingleLine(s[..k]) && Denotes(q, s[k..])
  {
    DenotesCons(Many(AnyButLineTerminator), q, s);
    k :| 0 <= k <= |s| && AllAccepted(AnyButLineTerminator, s[..k]) && Denotes(q, s[k..]);
  }

  lemma StarBetweenJoin(p: seq<Atom>, q: seq<Atom>, o: string, i: nat, j: nat)
    requires i <= j <= |o| && Denotes(p, o[..i]) && SingleLine(o[i..j]) && Denotes(q, o[j..])
    ensures Denotes(p + [Many(AnyButLineTerminator)] + q, o)
  {
    var r := [Many(AnyButLineTerminator)] + q;
    StarRunAt(q, o, i, j);
    JoinAt(p, r, o, i);
    StarRegroup(p, q);
  }

  /** A single-line run from `i` to `j` followed by a match of `q` is a match of `.*` then `q` from `i`. */
  lemma StarRunAt(q: seq<Atom>, o: string, i: nat, j: nat)
    requires i <= j <= |o| && SingleLine(o[i..j]) && Denotes(q, o[j..])
    ensures Denotes([Many(AnyButLineTerminator)] + q, o[i..])
  {
    var rest := o[i..];
    assert rest[..j - i] == o[i..j] && rest[j - i..] == o[j..];
    ConsManyIntro(AnyButLineTerminator, q, rest, j - i);
  }

  /** Matches of `p` up to `i` and of `r` from `i` make a match of `p + r`. */
  lemma JoinAt(p: seq<Atom>, r: seq<Atom>, o: string, i: nat)
    requires i <= |o| && Denotes(p, o[..i]) && Denotes(r, o[i..])
    ensures Denotes(p + r, o)
  {
    DenotesAppend(p, r, o[..i], o[i..]);
    assert o[..i] + o[i..] == o;
  }

  lemma CompileAppend(a: string, b: string)
    ensures Compile(a + b) == Compile(a) + Compile(b)
  {
    assert forall i :: 0 <= i < |a + b| ==> Compile(a + b)[i] == (Compile(a) + Compile(b))[i];
  }

  /** Compiling a wildcard entry puts a `Many` atom for its `*` between what comes before and after. */
  lemma CompileStar(a: string, b: string)
    ensures Compile(a + "*" + b) == Compile(a) + [Many(AnyButLineTerminator)] + Compile(b)
  {
    CompileAppend(a + "*", b);
    CompileAppend(a, "*");
  }

  // ---------------------------------------------------------------------------
  // What an entry allows

  /** An entry with `*` allows an origin iff the origin is the entry with that `*` read as any single-line substring. */
  lemma WildcardEntry(a: string, b: string, origin: string)
    ensures EntryAllows(a + "*" + b, origin) == Some(exists i, j :: SplitsAround(Compile(a), Compile(b), origin, i, j))
  {
    var entry := a + "*" + b;
    assert entry[|a|] == '*';
    CompileStar(a, b);
    StarBetween(Compile(a), Compile(b), origin);
  }

  /** The entry `"*"`, which is also the whole default list, allows every single-line origin and nothing else. */
  lemma LoneStarEntry(origin: string)
    ensures EntryAllows("*", origin) == Some(SingleLine(origin))
  {
    WildcardEntry("", "", origin);
    assert "" + "*" + "" == "*";
    assert Compile("") == [];
    if SingleLine(origin) {
      assert origin[..0] == [] && origin[0..|origin|] == origin && origin[|origin|..] == [];
      assert SplitsAround(Compile(""), Compile(""), origin, 0, |origin|);
    }
    if exists i, j :: SplitsAround(Compile(""), Compile(""), origin, i, j) {
      var i, j :| SplitsAround(Compile(""), Compile(""), origin, i, j);
      assert origin[..i] == [] && origin[j..] == [];
      assert origin[i..j] == origin;
    }
  }

  /** A `.` in a wildcard entry stands for any one character other than a line terminator, not only for `.`. */
  lemma DotEntry(a: string, b: string, origin: string)
    ensures Denotes(Compile(a + "." + b), origin) <==>
      exists i :: 0 <= i < |origin| && Denotes(Compile(a), origin[..i])
        && !IsLineTerminator(origin[i]) && Denotes(Compile(b), origin[i + 1..])
  {
    CompileDot(a, b);
    if Denotes(Compile(a + "." + b), origin) {
      DotSplit(Compile(a), Compile(b), origin);
    }
    if exists i :: 0 <= i < |origin| && Denotes(Compile(a), origin[..i])
        && !IsLineTerminator(origin[i]) && Denotes(Compile(b), origin[i + 1..]) {
      var i :| 0 <= i < |origin| && Denotes(Compile(a), origin[..i])
        && !IsLineTerminator(origin[i]) && Denotes(Compile(b), origin[i + 1..]);
      DotJoin(Compile(a), Compile(b), origin, i);
    }
  }

  lemma CompileDot(a: string, b: string)
    ensures Compile(a + "." + b) == Compile(a) + [One(AnyButLineTerminator)] + Compile(b)
  {
    CompileAppend(a + ".", b);
    CompileAppend(a, ".");
    assert Compile(".") == [One(AnyButLineTerminator)];
  }

  lemma DotSplit(p: seq<Atom>, q: seq<Atom>, o: string)
    requires Denotes(p + [One(AnyButLineTerminator)] + q, o)
    ensures exists i :: 0 <= i < |o| && Denotes(p, o[..i]) && !IsLineTerminator(o[i]) && Denotes(q, o[i + 1..])
  {
    var r := [One(AnyButLineTerminator)] + q;
    assert p + [One(AnyButLineTerminator)] + q == p + r;
    var i := DenotesSplit(p, r, o);
    DenotesCons(One(AnyButLineTerminator), q, o[i..]);
    assert o[i..][1..] == o[i + 1..];
  }

  lemma DotJoin(p: seq<Atom>, q: seq<Atom>, o: string, i: nat)
    requires i < |o| && Denotes(p, o[..i]) && !IsLineTerminator(o[i]) && Denotes(q, o[i + 1..])
    ensures Denotes(p + [One(AnyButLineTerminator)] + q, o)
  {
    var r := [One(AnyButLineTerminator)] + q;
    assert p + [One(AnyButLineTerminator)] + q == p + r;
    assert o[i..][1..] == o[i + 1..];
    DenotesCons(One(AnyButLineTerminator), q, o[i..]);
    DenotesAppend(p, r, o[..i], o[i..]);
    assert o[..i] + o[i..] == o;
  }

  /** Read with `Compile`, an entry without `*` or `.` stands for itself alone. */
  lemma {:induction false} PlainLiteral(w: string, o: string)
    requires '*' !in w && '.' !in w
    ensures Denotes(Compile(w), o) <==> o == w
  {
    CompileAgreesWithoutDots(w);
    EscapedLiteral(w, o);
  }

  /** A star-free, single-line entry is matched by itself, whatever its dots. */
  lemma {:induction false} LiteralSelf(w: string)
    requires '*' !in w && SingleLine(w)
    ensures Denotes(Compile(w), w)
  {
    if w != [] {
      LiteralSelf(w[1..]);
      assert Compile(w) == [AtomOf(w[0])] + Compile(w[1..]);
      assert Compile(w)[1..] == Compile(w[1..]);
    }
  }

  // ---------------------------------------------------------------------------
  // The `origin` option as a whole

  /** The list is read as a set: order and duplicates do not change the verdict. */
  lemma SameEntriesSameVerdict(origin: Option<string>, a: seq<string>, b: seq<string>)
    requires forall e :: e in a <==> e in b
    ensures OriginAllowed(origin, a) == OriginAllowed(origin, b)
  {
    if origin != None && origin.value != "" {
      var o := origin.value;
      if exists i :: 0 <= i < |a| && EntryAllows(a[i], o) == Some(true) {
        var i :| 0 <= i < |a| && EntryAllows(a[i], o) == Some(true);
        assert a[i] in b;
      }
      if exists i :: 0 <= i < |b| && EntryAllows(b[i], o) == Some(true) {
        var i :| 0 <= i < |b| && EntryAllows(b[i], o) == Some(true);
        assert b[i] in a;
      }
    }
  }

  /** An empty list refuses every present origin. */
  lemma EmptyListRefuses(origin: string)
    requires origin != ""
    ensures OriginAllowed(Some(origin), []) == Some(false)
  {
  }

  /** With the default list every single-line origin is allowed. */
  lemma DefaultListAllowsAll(origin: string)
    ensures OriginAllowed(Some(origin), DefaultAllowedOrigins) == Some(origin == "" || SingleLine(origin))
  {
    LoneStarEntry(origin);
  }

  // ---------------------------------------------------------------------------
  // The unescaped `.`

  /** A wildcard entry `a*.b` admits `a`, then any single-line run, then any one character in place of the `.`, then `b`. */
  lemma DotAfterStar(a: string, b: string, w: string, c: char)
    requires '*' !in a && '*' !in b && SingleLine(a) && SingleLine(b)
    requires SingleLine(w) && !IsLineTerminator(c)
    ensures EntryAllows(a + "*" + ("." + b), a + w + ([c] + b)) == Some(true)
  {
    var o := a + w + ([c] + b);
    LiteralSelf(a);
    LiteralSelf(b);
    assert Compile(".") == [One(AnyButLineTerminator)];
    assert Denotes(Compile("."), [c]);
    DenotesAppend(Compile("."), Compile(b), [c], b);
    CompileAppend(".", b);
    var i, j := |a|, |a| + |w|;
    assert o[..i] == a && o[i..j] == w && o[j..] == [c] + b;
    assert SplitsAround(Compile(a), Compile("." + b), o, i, j);
    WildcardEntry(a, "." + b, o);
  }

  lemma ExampleSpellings(a: string, b: string)
    requires a == "https://" && b == "example.com"
    ensures a + "*" + ("." + b) == "https://*.example.com"
    ensures a + "evi" + (['l'] + b) == "https://evilexample.com"
  {
  }

  /** The entry written to admit the subdomains of `example.com` admits an unrelated host too. */
  lemma EvilOriginAllowed()
    ensures EntryAllows("https://*.example.com", "https://evilexample.com") == Some(true)
  {
    var a, b := "https://", "example.com";
    assert SingleLine(a) && SingleLine(b) && SingleLine("evi");
    DotAfterStar(a, b, "evi", 'l');
    ExampleSpellings(a, b);
  }

  /** How the entry reads once `.` is escaped as well: everything but `*` is literal. */
  function EscapedAtomOf(c: char): Atom {
    if c == '*' then Many(AnyButLineTerminator) else One(Exactly(c))
  }

  function CompileEscaped(entry: string): (p: seq<Atom>)
    ensures |p| == |entry|
  {
    seq(|entry|, i requires 0 <= i < |entry| => EscapedAtomOf(entry[i]))
  }

  /** The entry test with the `.` of the entry escaped before the pattern is built. */
  function EscapedEntryAllows(entry: string, origin: string): (r: bool)
    ensures '*' in entry ==> (r <==> Denotes(CompileEscaped(entry), origin))
    ensures '*' !in entry ==> (r <==> entry == origin)
  {
    if '*' in entry then
      MatchAtomsDenotes(CompileEscaped(entry), origin);
      MatchAtoms(CompileEscaped(entry), origin)
    else entry == origin
  }

  lemma CompileAgreesWithoutDots(w: string)
    requires '.' !in w
    ensures Compile(w) == CompileEscaped(w)
  {
    assert forall i :: 0 <= i < |w| ==> w[i] != '.';
  }

  /** Escaped, a star-free entry stands for itself alone. */
  lemma {:induction false} EscapedLiteral(w: string, o: string)
    requires '*' !in w
    ensures Denotes(CompileEscaped(w), o) <==> o == w
  {
    if w != [] {
      assert CompileEscaped(w) == [EscapedAtomOf(w[0])] + CompileEscaped(w[1..]);
      assert CompileEscaped(w)[1..] == CompileEscaped(w[1..]);
      if o != [] {
        EscapedLiteral(w[1..], o[1..]);
        assert o == [o[0]] + o[1..] && w == [w[0]] + w[1..];
      }
    }
  }

  lemma CompileEscapedStar(a: string, b: string)
    ensures CompileEscaped(a + "*" + b) == CompileEscaped(a) + [Many(AnyButLineTerminator)] + CompileEscaped(b)
  {
    var e := a + "*" + b;
    assert forall i :: 0 <= i < |e| ==>
      CompileEscaped(e)[i] == (CompileEscaped(a) + [Many(AnyButLineTerminator)] + CompileEscaped(b))[i];
  }

  /**
   * With `.` escaped, an entry with a single `*` allows exactly the origins that are
   * its prefix, any single-line run, then its suffix.
   */
  lemma EscapedWildcardEntry(a: string, b: string, origin: string)
    requires '*' !in a && '*' !in b
    ensures EscapedEntryAllows(a + "*" + b, origin) <==>
      exists w :: SingleLine(w) && origin == a + w + b
  {
    var entry := a + "*" + b;
    assert entry[|a|] == '*';
    CompileEscapedStar(a, b);
    StarBetween(CompileEscaped(a), CompileEscaped(b), origin);
    if EscapedEntryAllows(entry, origin) {
      var i, j :| SplitsAround(CompileEscaped(a), CompileEscaped(b), origin, i, j);
      EscapedPieces(a, b, origin, i, j);
    }
    if exists w :: SingleLine(w) && origin == a + w + b {
      var w :| SingleLine(w) && origin == a + w + b;
      EscapedWitness(a, b, w, origin);
    }
  }

  lemma EscapedPieces(a: string, b: string, origin: string, i: nat, j: nat)
    requires '*' !in a && '*' !in b && i <= j <= |origin|
    requires Denotes(CompileEscaped(a), origin[..i]) && Denotes(CompileEscaped(b), origin[j..])
    requires SingleLine(origin[i..j])
    ensures SingleLine(origin[i..j]) && origin == a + origin[i..j] + b
  {
    EscapedLiteral(a, origin[..i]);
    EscapedLiteral(b, origin[j..]);
    assert origin == origin[..i] + origin[i..j] + origin[j..];
  }

  lemma EscapedWitness(a: string, b: string, w: string, origin: string)
    requires '*' !in a && '*' !in b && SingleLine(w) && origin == a + w + b
    ensures exists i, j :: SplitsAround(CompileEscaped(a), CompileEscaped(b), origin, i, j)
  {
    var i, j := |a|, |a| + |w|;
    assert origin[..i] == a && origin[i..j] == w && origin[j..] == b;
    EscapedLiteral(a, a);
    EscapedLiteral(b, b);
    assert SplitsAround(CompileEscaped(a), CompileEscaped(b), origin, i, j);
  }

  lemma EndsWith(o: string, a: string, w: string, b: string)
    requires o == a + w + b
    ensures |o| >= |b| && o[|o| - |b|..] == b
  {
  }

  /** Escaped, the same entry refuses the unrelated host. */
  lemma EscapedRefusesEvilOrigin()
    ensures !EscapedEntryAllows("https://*.example.com", "https://evilexample.com")
  {
    var o := "https://evilexample.com";
    assert "https://" + "*" + ".example.com" == "https://*.example.com";
    EscapedWildcardEntry("https://", ".example.com", o);
    if exists w :: SingleLine(w) && o == "https://" + w + ".example.com" {
      var w :| SingleLine(w) && o == "https://" + w + ".example.com";
      EndsWith(o, "https://", w, ".example.com");
      assert false;
    }
  }
}
