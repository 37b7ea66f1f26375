/** `parse_comp_spec`: the text a raid leader types to describe a composition,
    one role per line as `Label;slots;option;option…`, turned into composition
    roles plus the warnings shown back. Keys are slugs of the labels unless a
    `key=` option gives one, and a key already taken gets a `_2`, `_3`, …
    suffix. */
module CompSpec {
  import opened Base
  import opened Chars
  import opened PyInt
  import opened Mentions
  import opened Text
  import opened Entities

  /* ---------- splitting ---------- */

  /** The characters of `s` that `sep` does not select, in order. */
  function Without(s: string, sep: char -> bool): (r: string)
    ensures |r| <= |s|
  {
    if s == [] then [] else (if sep(s[0]) then [] else [s[0]]) + Without(s[1..], sep)
  }

  function CountSeparators(s: string, sep: char -> bool): (n: nat)
    ensures n <= |s|
  {
    if s == [] then 0 else (if sep(s[0]) then 1 else 0) + CountSeparators(s[1..], sep)
  }

  /** Cutting `s` at every separator character: `n` separators give `n + 1`
      pieces, no piece holds a separator, and the pieces put together are `s`
      without its separators. */
  function SplitAt(s: string, sep: char -> bool): (parts: seq<string>)
    ensures |parts| == CountSeparators(s, sep) + 1
    ensures forall k, i | 0 <= k < |parts| && 0 <= i < |parts[k]| :: !sep(parts[k][i])
    ensures Concat(parts) == Without(s, sep)
  {
    if s == [] then [""]
    else
      var rest := SplitAt(s[1..], sep);
      if sep(s[0]) then
        assert ([""] + rest)[1..] == rest;
        [""] + rest
      else
        var parts := [[s[0]] + rest[0]] + rest[1..];
        SplitAtGlue(s, sep, rest);
        parts
  }

  /** A non-separator head joins the first piece of the tail's split. */
  lemma SplitAtGlue(s: string, sep: char -> bool, rest: seq<string>)
    requires s != [] && !sep(s[0]) && |rest| >= 1
    requires |rest| == CountSeparators(s[1..], sep) + 1
    requires forall k, i | 0 <= k < |rest| && 0 <= i < |rest[k]| :: !sep(rest[k][i])
    requires Concat(rest) == Without(s[1..], sep)
    ensures var parts := [[s[0]] + rest[0]] + rest[1..];
      && |parts| == CountSeparators(s, sep) + 1
      && (forall k, i | 0 <= k < |parts| && 0 <= i < |parts[k]| :: !sep(parts[k][i]))
      && Concat(parts) == Without(s, sep)
  {
    assert rest == [rest[0]] + rest[1..];
    GlueConcat(s[0], rest[0], rest[1..]);
    GlueKeepsPieces(s[0], sep, rest);
    assert Without(s, sep) == [s[0]] + Without(s[1..], sep);
    assert CountSeparators(s, sep) == CountSeparators(s[1..], sep);
  }

  lemma GlueConcat(c: char, head: string, tail: seq<string>)
    ensures Concat([[c] + head] + tail) == [c] + Concat([head] + tail)
  {
    var parts, rest := [[c] + head] + tail, [head] + tail;
    assert parts[0] == [c] + head && parts[1..] == tail;
    assert rest[0] == head && rest[1..] == tail;
    assert ([c] + head) + Concat(tail) == [c] + (head + Concat(tail));
  }

  lemma GlueKeepsPieces(c: char, sep: char -> bool, rest: seq<string>)
    requires !sep(c) && |rest| >= 1
    requires forall k, i | 0 <= k < |rest| && 0 <= i < |rest[k]| :: !sep(rest[k][i])
    ensures var parts := [[c] + rest[0]] + rest[1..];
      forall k, i | 0 <= k < |parts| && 0 <= i < |parts[k]| :: !sep(parts[k][i])
  {
    var parts := [[c] + rest[0]] + rest[1..];
    forall k, i | 0 <= k < |parts| && 0 <= i < |parts[k]| ensures !sep(parts[k][i]) {
      if k == 0 {
        if i > 0 {
          assert parts[0][i] == rest[0][i - 1];
        }
      } else {
        assert parts[k] == rest[k];
      }
    }
  }

  /** Each piece stripped, the blank ones dropped. */
  function StrippedNonBlank(pieces: seq<string>): (lines: seq<string>)
    ensures |lines| <= |pieces|
    ensures forall k | 0 <= k < |lines| :: lines[k] != []
  {
    if pieces == [] then []
    else
      var t := Strip(pieces[0]);
      var rest := StrippedNonBlank(pieces[1..]);
      if t == [] then rest else NonEmptyCons(t, rest); [t] + rest
  }

  lemma NonEmptyCons(t: string, rest: seq<string>)
    requires t != [] && forall k | 0 <= k < |rest| :: rest[k] != []
    ensures forall k | 0 <= k < |[t] + rest| :: ([t] + rest)[k] != []
  {
    forall k | 0 <= k < |[t] + rest| ensures ([t] + rest)[k] != [] {
      if k > 0 {
        assert ([t] + rest)[k] == rest[k - 1];
      }
    }
  }

  /** `[ln.strip() for ln in (spec or "").splitlines() if ln.strip()]`. A
      `\r\n` pair is cut twice here, which only adds a blank piece, and blank
      pieces are dropped anyway. */
  function SpecLines(spec: string): (lines: seq<string>)
    ensures forall k | 0 <= k < |lines| :: lines[k] != []
  {
    StrippedNonBlank(SplitAt(spec, IsLineBreak))
  }

  predicate IsFieldSeparator(c: char) {
    c == ';' || c == '|'
  }

  /** `re.split(r"\s*[;|]\s*", ln)` with every field stripped: the spaces the
      pattern swallows next to a separator are exactly those stripping removes
      from the field ends, as the line itself is already stripped and the parser
      strips every field it reads. */
  function Fields(ln: string): (fields: seq<string>)
    ensures |fields| == CountSeparators(ln, IsFieldSeparator) + 1
  {
    var parts := SplitAt(ln, IsFieldSeparator);
    seq(|parts|, k requires 0 <= k < |parts| => Strip(parts[k]))
  }

  /* ---------- default keys ---------- */

  /** The characters a key may hold: `[a-z0-9]` and the underscore. */
  predicate KeyChars(s: string) {
    forall i | 0 <= i < |s| :: IsSlugChar(s[i]) || s[i] == '_'
  }

  /** The shape of a derived key: non-empty, `[a-z0-9_]` only, no underscore at
      either end and no two in a row. */
  predicate IsSlug(s: string) {
    && s != []
    && KeyChars(s)
    && NoDoubleUnderscore(s)
    && s[0] != '_' && s[|s| - 1] != '_'
  }

  /** The rest of `s` after its leading characters outside `[a-z0-9]`. */
  function SkipRun(s: string): (r: string)
    ensures |r| <= |s| && r == s[|s| - |r|..]
    ensures r == [] || IsSlugChar(r[0])
    ensures forall i | 0 <= i < |s| - |r| :: !IsSlugChar(s[i])
  {
    if s == [] || IsSlugChar(s[0]) then s else SkipRun(s[1..])
  }

  /** `re.sub(r"[^a-z0-9]+", "_", s)`: every maximal run of characters outside
      `[a-z0-9]` becomes one underscore. */
  function Underscore(s: string): (r: string)
    ensures KeyChars(r) && NoDoubleUnderscore(r)
    ensures r == [] <==> s == []
    ensures s != [] ==> r[0] == (if IsSlugChar(s[0]) then s[0] else '_')
    decreases |s|
  {
    if s == [] then []
    else if IsSlugChar(s[0]) then
      var rest := Underscore(s[1..]);
      NoDoubleCons(s[0], rest);
      [s[0]] + rest
    else
      var rest := Underscore(SkipRun(s[1..]));
      NoDoubleCons('_', rest);
      ['_'] + rest
  }

  function TrimUnderscoreStart(s: string): (r: string)
    ensures |r| <= |s| && r == s[|s| - |r|..]
    ensures r == [] || r[0] != '_'
  {
    if s != [] && s[0] == '_' then TrimUnderscoreStart(s[1..]) else s
  }

  function TrimUnderscoreEnd(s: string): (r: string)
    ensures |r| <= |s| && r == s[..|r|]
    ensures r == [] || r[|r| - 1] != '_'
  {
    if s != [] && s[|s| - 1] == '_' then TrimUnderscoreEnd(s[..|s| - 1]) else s
  }

  /** `s.strip("_")`. */
  function TrimUnderscores(s: string): (r: string)
    ensures KeyChars(s) && NoDoubleUnderscore(s) ==> KeyChars(r) && NoDoubleUnderscore(r)
    ensures r == [] || (r[0] != '_' && r[|r| - 1] != '_')
  {
    var t := TrimUnderscoreStart(s);
    var r := TrimUnderscoreEnd(t);
    TrimmedShape(s, t, r);
    r
  }

  /** `r`, the front-trimmed `t` of `s` trimmed at the back, is a slice of `s`
      with no underscore at either end. */
  lemma TrimmedShape(s: string, t: string, r: string)
    requires |t| <= |s| && t == s[|s| - |t|..] && (t == [] || t[0] != '_')
    requires |r| <= |t| && r == t[..|r|] && (r == [] || r[|r| - 1] != '_')
    ensures KeyChars(s) && NoDoubleUnderscore(s) ==> KeyChars(r) && NoDoubleUnderscore(r)
    ensures r == [] || (r[0] != '_' && r[|r| - 1] != '_')
  {
    assert r != [] ==> r[0] == t[0];
    SliceOfSlice(s, t, r);
    if KeyChars(s) && NoDoubleUnderscore(s) {
      KeyShapeSlice(s, |s| - |t|, |s| - |t| + |r|);
    }
  }

  /** A slice of a key-shaped text keeps its characters and its single
      underscores. */
  lemma KeyShapeSlice(s: string, a: int, b: int)
    requires KeyChars(s) && NoDoubleUnderscore(s) && 0 <= a <= b <= |s|
    ensures KeyChars(s[a..b]) && NoDoubleUnderscore(s[a..b])
  {
    NoDoubleSlice(s, a, b);
    var t := s[a..b];
    forall i | 0 <= i < |t| ensures IsSlugChar(t[i]) || t[i] == '_' {
      assert t[i] == s[a + i];
    }
  }

  /** The key derived from a label: lower-cased, runs of other characters
      turned into single underscores (so collapsing repeated underscores has
      nothing left to do), trimmed of underscores, and `role` when nothing is
      left. */
  function Slug(roleLabel: string): (key: string)
    ensures IsSlug(key)
  {
    var t := Slugged(Lower(Strip(roleLabel)));
    if t == [] then RoleIsSlug(); "role" else t
  }

  /** The substitution and the trimming, on the lower-cased label. */
  function Slugged(s: string): (t: string)
    ensures t != [] ==> IsSlug(t)
  {
    var u := Underscore(s);
    TrimUnderscores(u)
  }

  lemma RoleIsSlug()
    ensures IsSlug("role")
  {
    var r := "role";
    assert forall i | 0 <= i < |r| :: IsSlugChar(r[i]);
  }

  lemma {:induction false} UnderscoreOfKeyChars(s: string)
    requires KeyChars(s) && NoDoubleUnderscore(s)
    ensures Underscore(s) == s
  {
    if s != [] {
      NoDoubleSlice(s, 1, |s|);
      assert s[1..|s|] == s[1..];
      assert KeyChars(s[1..]);
      if !IsSlugChar(s[0]) {
        assert |s| > 1 ==> SingleUnderscoreAt(s, 0);
        assert s[1..] == [] || IsSlugChar(s[1]);
        assert SkipRun(s[1..]) == s[1..];
      }
      UnderscoreOfKeyChars(s[1..]);
    }
  }

  lemma {:induction false} LowerOfKeyChars(s: string)
    requires KeyChars(s)
    ensures Lower(s) == s
  {
  }

  /** A key that already has the slug shape is its own slug. */
  lemma SlugOfSlug(s: string)
    requires IsSlug(s)
    ensures Slug(s) == s
  {
    assert !IsSpace(s[0]) && !IsSpace(s[|s| - 1]);
    assert TrimStart(s) == s;
    assert Strip(s) == s;
    LowerOfKeyChars(s);
    UnderscoreOfKeyChars(s);
    assert TrimUnderscoreStart(s) == s;
  }

  /** Deriving a key twice changes nothing. */
  lemma SlugIdempotent(roleLabel: string)
    ensures Slug(Slug(roleLabel)) == Slug(roleLabel)
  {
    SlugOfSlug(Slug(roleLabel));
  }

  lemma {:induction false} UnderscoreOfNoSlugChar(s: string)
    requires forall i | 0 <= i < |s| :: !IsSlugChar(s[i])
    ensures Underscore(s) == [] || Underscore(s) == "_"
  {
    if s != [] {
      assert SkipRun(s[1..]) == [];
    }
  }

  /** A label without any letter or digit gets the key `role`. */
  lemma SlugFallback(roleLabel: string)
    requires forall i | 0 <= i < |roleLabel| :: !IsSlugChar(LowerChar(roleLabel[i]))
    ensures Slug(roleLabel) == "role"
  {
    var t := Strip(roleLabel);
    StripIsSlice(roleLabel);
    var l := Lower(t);
    assert forall i | 0 <= i < |l| :: !IsSlugChar(l[i]);
    UnderscoreOfNoSlugChar(l);
    var u := Underscore(l);
    if u == "_" {
      assert TrimUnderscoreStart(u) == TrimUnderscoreStart(u[1..]);
    }
  }

  /* ---------- unique keys ---------- */

  function Suffixed(base: string, n: nat): string {
    base + "_" + NatToString(n)
  }

  lemma SuffixedInjective(base: string, j: nat, k: nat)
    ensures Suffixed(base, j) == Suffixed(base, k) ==> j == k
  {
    if Suffixed(base, j) == Suffixed(base, k) {
      assert Suffixed(base, j)[|base| + 1..] == NatToString(j);
      assert Suffixed(base, k)[|base| + 1..] == NatToString(k);
      NatToStringInjective(j, k);
    }
  }

  /** The first suffix from `n` on whose key is not taken. Each step drops the
      key just found taken, so the set of taken keys shrinks. */
  function FreshSuffix(base: string, used: set<string>, n: nat): (m: nat)
    ensures m >= n && Suffixed(base, m) !in used
    ensures forall k | n <= k < m :: Suffixed(base, k) in used
    decreases |used|
  {
    if Suffixed(base, n) !in used then n
    else
      var m := FreshSuffix(base, used - {Suffixed(base, n)}, n + 1);
      SuffixedInjective(base, m, n);
      m
  }

  /** The `while key in used_keys` loop: the key itself when free, otherwise
      the first free one of `key_2`, `key_3`, …. */
  function FreshKey(base: string, used: set<string>): (key: string)
    ensures key !in used
    ensures base !in used ==> key == base
    ensures base in used ==> exists m: nat ::
      (m >= 2 && key == Suffixed(base, m) && forall k | 2 <= k < m :: Suffixed(base, k) in used)
  {
    if base !in used then base else Suffixed(base, FreshSuffix(base, used, 2))
  }

  /* ---------- options ---------- */

  /** What `parse_comp_spec` reports; `WarningText` gives the message shown. */
  datatype Warning =
    | EmptySpec
    | BadFormat(line: nat)
    | BadSlots(line: nat, raw: string)
    | UnknownOption(line: nat, option: string)
    | NoValidRole

  function WarningText(w: Warning): string {
    match w
    case EmptySpec => "Spec vide."
    case BadFormat(i) => "Ligne " + NatToString(i) + ": format invalide (min: Label;slots)."
    case BadSlots(i, raw) => "Ligne " + NatToString(i) + ": slots invalide: '" + raw + "'."
    case UnknownOption(i, p) => "Ligne " + NatToString(i) + ": option inconnue '" + p + "' ignorée."
    case NoValidRole => "Aucun rôle valide."
  }

  /** A warning about one skipped line. */
  predicate IsSkip(w: Warning) {
    w.BadFormat? || w.BadSlots?
  }

  function SkipCount(ws: seq<Warning>): (n: nat)
    ensures n <= |ws|
  {
    if ws == [] then 0 else (if IsSkip(ws[0]) then 1 else 0) + SkipCount(ws[1..])
  }

  lemma {:induction false} SkipCountConcat(a: seq<Warning>, b: seq<Warning>)
    ensures SkipCount(a + b) == SkipCount(a) + SkipCount(b)
  {
    if a == [] {
      assert a + b == b;
    } else {
      assert (a + b)[1..] == a[1..] + b;
      SkipCountConcat(a[1..], b);
    }
  }

  /** What one line's options have set so far; an empty key means none. */
  datatype Opts = Opts(ipRequired: bool, requiredRoleIds: seq<int>, key: string)

  datatype OptionKind = IpOn | IpOff | RequireIds(ids: seq<int>) | ExplicitKey(key: string) | Unknown

  /** `s.split(c, 1)[1]`: what follows the first `c`. */
  function AfterFirst(s: string, c: char): (r: string)
    ensures |r| < |s| || s == []
  {
    if s == [] then [] else if s[0] == c then s[1..] else AfterFirst(s[1..], c)
  }

  /** `re.fullmatch(r"[\d,\s<@&>]+", p)` together with "holds a digit". */
  predicate LooksLikeIds(p: string) {
    && p != []
    && (forall i | 0 <= i < |p| :: IsDigit(p[i]) || IsSpace(p[i]) || p[i] in ",<@&>")
    && (exists i | 0 <= i < |p| :: IsDigit(p[i]))
  }

  /** How one non-empty, stripped option is read, tried in the order of the
      source: the `ip` switches on the lower-cased text, then the `req=`,
      `require=`, `roles=` and `key=` prefixes, then a bare list of ids. */
  function Classify(p: string): (k: OptionKind)
    ensures k.RequireIds? ==> k.ids == ParseIds(Some(AfterFirst(p, '='))) || k.ids == ParseIds(Some(p))
    ensures k.ExplicitKey? ==> IsPrefix("key=", Lower(p)) && k.key == Strip(AfterFirst(p, '='))
    ensures k.Unknown? ==> !LooksLikeIds(p)
  {
    var low := Lower(p);
    if low in ["ip", "ip=1", "ip=true", "ip_required", "ip_required=true"] then IpOn
    else if low in ["ip=0", "ip=false", "noip", "ip_required=false"] then IpOff
    else if IsPrefix("req=", low) || IsPrefix("require=", low) || IsPrefix("roles=", low) then
      RequireIds(ParseIds(Some(AfterFirst(p, '='))))
    else if IsPrefix("key=", low) then ExplicitKey(Strip(AfterFirst(p, '=')))
    else if LooksLikeIds(p) then RequireIds(ParseIds(Some(p)))
    else Unknown
  }

  function ApplyOption(o: Opts, k: OptionKind): (r: Opts) {
    match k
    case IpOn => o.(ipRequired := true)
    case IpOff => o.(ipRequired := false)
    case RequireIds(ids) => o.(requiredRoleIds := ids)
    case ExplicitKey(key) => o.(key := key)
    case Unknown => o
  }

  /** The `for p in parts[2:]` loop over one line's options, left to right;
      a later option overrides an earlier one of the same kind. */
  function ApplyOptions(o: Opts, options: seq<string>, line: nat): (r: (Opts, seq<Warning>))
    ensures |r.1| <= |options|
    ensures AllUnknownAt(r.1, line)
    ensures options == [] ==> r == (o, [])
    decreases |options|
  {
    if options == [] then (o, [])
    else
      var first := ReadOption(o, options[0], line);
      var rest := ApplyOptions(first.0, options[1..], line);
      UnknownAt(first.1, rest.1, line);
      (rest.0, first.1 + rest.1)
  }

  predicate AllUnknownAt(ws: seq<Warning>, line: nat) {
    forall k | 0 <= k < |ws| :: ws[k].UnknownOption? && ws[k].line == line
  }

  lemma UnknownAt(a: seq<Warning>, b: seq<Warning>, line: nat)
    requires AllUnknownAt(a, line) && AllUnknownAt(b, line)
    ensures AllUnknownAt(a + b, line)
  {
    assert forall k | |a| <= k < |a + b| :: (a + b)[k] == b[k - |a|];
  }

  /** One option: an empty one is passed over, an unknown one is reported. */
  function ReadOption(o: Opts, option: string, line: nat): (r: (Opts, seq<Warning>))
    ensures |r.1| <= 1
    ensures r.1 != [] ==> r.1[0] == UnknownOption(line, Strip(option)) && r.0 == o
  {
    var p := Strip(option);
    if p == [] then (o, [])
    else
      var kind := Classify(p);
      if kind.Unknown? then (o, [UnknownOption(line, p)]) else (ApplyOption(o, kind), [])
  }

  /* ---------- lines ---------- */

  /** Whether a line is skipped: fewer than two fields, or a slot count that
      is not a non-negative integer. */
  predicate SkipsLine(ln: string) {
    var fields := Fields(ln);
    |fields| < 2 || ParseInt(fields[1]).None? || ParseInt(fields[1]).value < 0
  }

  /** What one line says before its key is made unique: a skipped line with
      its warning, or a role with the key it asks for and the warnings of its
      options. */
  datatype LineShape =
    | Skipped(warning: Warning)
    | RoleLine(roleLabel: string, slots: int, opts: Opts, wantedKey: string, warnings: seq<Warning>)

  predicate ShapeOk(shape: LineShape) {
    match shape
    case Skipped(w) => IsSkip(w)
    case RoleLine(_, slots, _, _, ws) =>
      slots >= 0 && forall k | 0 <= k < |ws| :: ws[k].UnknownOption?
  }

  /** Line number `line` of the spec, read on its own. */
  function ReadLine(ln: string, line: nat): (r: LineShape)
    ensures ShapeOk(r)
    ensures r.Skipped? <==> SkipsLine(ln)
    ensures r.Skipped? ==> r.warning.line == line
    ensures r.RoleLine? ==> r.roleLabel == Fields(ln)[0] && Some(r.slots) == ParseInt(Fields(ln)[1])
    ensures r.RoleLine? ==> r.wantedKey == (if r.opts.key == "" then Slug(r.roleLabel) else r.opts.key)
    ensures r.RoleLine? ==> forall k | 0 <= k < |r.warnings| :: r.warnings[k].line == line
  {
    var fields := Fields(ln);
    if |fields| < 2 then Skipped(BadFormat(line))
    else
      var slots := ParseInt(fields[1]);
      if slots.None? || slots.value < 0 then Skipped(BadSlots(line, fields[1]))
      else
        var (o, ws) := ApplyOptions(Opts(false, [], ""), fields[2..], line);
        RoleLine(fields[0], slots.value, o, if o.key == "" then Slug(fields[0]) else o.key, ws)
  }

  /** The lines numbered from `first` on, each read on its own. */
  function ReadLines(lines: seq<string>, first: nat): (shapes: seq<LineShape>)
    ensures |shapes| == |lines|
    ensures forall k | 0 <= k < |shapes| :: ShapeOk(shapes[k])
    ensures forall k | 0 <= k < |shapes| :: shapes[k] == ReadLine(lines[k], first + k)
  {
    seq(|lines|, k requires 0 <= k < |lines| => ReadLine(lines[k], first + k))
  }

  predicate DistinctKeys(roles: seq<CompRole>) {
    forall i, j | 0 <= i < j < |roles| :: roles[i].key != roles[j].key
  }

  lemma {:induction false} NoSkips(ws: seq<Warning>)
    requires forall k | 0 <= k < |ws| :: ws[k].UnknownOption?
    ensures SkipCount(ws) == 0
  {
    if ws != [] {
      NoSkips(ws[1..]);
    }
  }

  /** The keys made unique in line order, `used` holding the keys of the roles
      kept so far; the warnings in line order. */
  function AssignKeys(shapes: seq<LineShape>, used: set<string>): (r: (seq<CompRole>, seq<Warning>))
    requires forall k | 0 <= k < |shapes| :: ShapeOk(shapes[k])
    ensures DistinctKeys(r.0)
    ensures forall k | 0 <= k < |r.0| :: r.0[k].key !in used && r.0[k].slots >= 0
    ensures |r.0| + SkipCount(r.1) == |shapes|
    ensures PlainWarnings(r.1)
    decreases |shapes|
  {
    if shapes == [] then ([], [])
    else
      var shape := shapes[0];
      assert ShapeOk(shape);
      if shape.Skipped? then
        var rest := AssignKeys(shapes[1..], used);
        WarningsCons(shape.warning, rest.1);
        (rest.0, [shape.warning] + rest.1)
      else
        var key := FreshKey(shape.wantedKey, used);
        var role := CompRole(key, shape.roleLabel, shape.slots, shape.opts.ipRequired, shape.opts.requiredRoleIds);
        var rest := AssignKeys(shapes[1..], used + {key});
        NoSkips(shape.warnings);
        SkipCountConcat(shape.warnings, rest.1);
        RolesCons(role, rest.0, used);
        WarningsConcat(shape.warnings, rest.1);
        ([role] + rest.0, shape.warnings + rest.1)
  }

  predicate PlainWarnings(ws: seq<Warning>) {
    forall k | 0 <= k < |ws| :: !ws[k].EmptySpec? && !ws[k].NoValidRole?
  }

  lemma WarningsCons(w: Warning, ws: seq<Warning>)
    requires IsSkip(w) && PlainWarnings(ws)
    ensures PlainWarnings([w] + ws)
  {
    forall k | 0 <= k < |ws| + 1 ensures !([w] + ws)[k].EmptySpec? && !([w] + ws)[k].NoValidRole? {
      if k > 0 {
        assert ([w] + ws)[k] == ws[k - 1];
      }
    }
  }

  lemma WarningsConcat(a: seq<Warning>, b: seq<Warning>)
    requires (forall k | 0 <= k < |a| :: a[k].UnknownOption?) && PlainWarnings(b)
    ensures PlainWarnings(a + b)
  {
    forall k | 0 <= k < |a + b| ensures !(a + b)[k].EmptySpec? && !(a + b)[k].NoValidRole? {
      if k >= |a| {
        assert (a + b)[k] == b[k - |a|];
      }
    }
  }

  /** A role whose key is fresh in `used`, in front of roles whose keys avoid it. */
  lemma RolesCons(role: CompRole, roles: seq<CompRole>, used: set<string>)
    requires role.key !in used && role.slots >= 0
    requires DistinctKeys(roles)
    requires forall k | 0 <= k < |roles| :: roles[k].key !in used + {role.key} && roles[k].slots >= 0
    ensures DistinctKeys([role] + roles)
    ensures forall k | 0 <= k < |[role] + roles| :: ([role] + roles)[k].key !in used && ([role] + roles)[k].slots >= 0
  {
    var out := [role] + roles;
    forall k | 1 <= k < |out| ensures out[k] == roles[k - 1] {
    }
  }

  /** `parse_comp_spec(spec)`: the roles in line order and the warnings. */
  function ParseCompSpec(spec: string): (r: (seq<CompRole>, seq<Warning>))
    ensures SpecLines(spec) == [] <==> r == ([], [EmptySpec])
    ensures DistinctKeys(r.0)
    ensures forall k | 0 <= k < |r.0| :: r.0[k].slots >= 0
    ensures SpecLines(spec) != [] ==> (NoValidRole in r.1 <==> r.0 == [])
    ensures SpecLines(spec) != [] ==> |r.0| + SkipCount(r.1) == |SpecLines(spec)|
  {
    var lines := SpecLines(spec);
    if lines == [] then ([], [EmptySpec])
    else
      var (roles, ws) := AssignKeys(ReadLines(lines, 1), {});
      if roles == [] then
        SkipCountConcat(ws, [NoValidRole]);
        (roles, ws + [NoValidRole])
      else (roles, ws)
  }

  /* ---------- line order ---------- */

  /** The role lines among `shapes`, in order. */
  function RoleLines(shapes: seq<LineShape>): (lines: seq<LineShape>)
    ensures forall k | 0 <= k < |lines| :: lines[k].RoleLine?
    ensures |lines| <= |shapes|
  {
    if shapes == [] then []
    else (if shapes[0].RoleLine? then [shapes[0]] else []) + RoleLines(shapes[1..])
  }

  /** Every warning each line raised, in line order. */
  function LineWarnings(shapes: seq<LineShape>): seq<Warning> {
    if shapes == [] then []
    else (if shapes[0].Skipped? then [shapes[0].warning] else shapes[0].warnings) + LineWarnings(shapes[1..])
  }

  /** The keys the roles `roles` took. */
  function KeySet(roles: seq<CompRole>): (keys: set<string>)
    ensures forall k | 0 <= k < |roles| :: roles[k].key in keys
  {
    if roles == [] then {} else {roles[0].key} + KeySet(roles[1..])
  }

  /** The role a role line makes once the keys in `used` are taken. */
  function RoleFor(shape: LineShape, used: set<string>): CompRole
    requires shape.RoleLine?
  {
    CompRole(FreshKey(shape.wantedKey, used), shape.roleLabel, shape.slots, shape.opts.ipRequired, shape.opts.requiredRoleIds)
  }

  /** Role `k` comes from role line `k`, its key made fresh against `used` and
      the keys of roles `0..k-1`. */
  predicate KeyedInOrder(lines: seq<LineShape>, roles: seq<CompRole>, used: set<string>)
    requires forall k | 0 <= k < |lines| :: lines[k].RoleLine?
  {
    |roles| == |lines| &&
    forall k | 0 <= k < |roles| :: roles[k] == RoleFor(lines[k], used + KeySet(roles[..k]))
  }

  /** The roles are the role lines in order, each keyed against the earlier
      ones; the warnings are each line's warnings in order. */
  lemma {:induction false} AssignKeysInOrder(shapes: seq<LineShape>, used: set<string>)
    requires forall k | 0 <= k < |shapes| :: ShapeOk(shapes[k])
    ensures KeyedInOrder(RoleLines(shapes), AssignKeys(shapes, used).0, used)
    ensures AssignKeys(shapes, used).1 == LineWarnings(shapes)
    decreases |shapes|
  {
    if shapes != [] {
      var shape := shapes[0];
      assert ShapeOk(shape);
      if shape.Skipped? {
        AssignKeysInOrder(shapes[1..], used);
      } else {
        var key := FreshKey(shape.wantedKey, used);
        AssignKeysInOrder(shapes[1..], used + {key});
        KeyedCons(shape, RoleLines(shapes[1..]), AssignKeys(shapes[1..], used + {key}).0, used);
      }
    }
  }

  /** A role line's role in front of roles keyed against it. */
  lemma KeyedCons(shape: LineShape, lines: seq<LineShape>, rest: seq<CompRole>, used: set<string>)
    requires shape.RoleLine?
    requires forall k | 0 <= k < |lines| :: lines[k].RoleLine?
    requires KeyedInOrder(lines, rest, used + {RoleFor(shape, used).key})
    ensures KeyedInOrder([shape] + lines, [RoleFor(shape, used)] + rest, used)
  {
    var role := RoleFor(shape, used);
    var roles := [role] + rest;
    var all := [shape] + lines;
    assert roles[..0] == [];
    forall k | 1 <= k < |roles|
      ensures roles[k] == RoleFor(all[k], used + KeySet(roles[..k]))
    {
      assert roles[..k][1..] == rest[..k - 1];
      assert KeySet(roles[..k]) == {role.key} + KeySet(rest[..k - 1]);
      assert used + KeySet(roles[..k]) == used + {role.key} + KeySet(rest[..k - 1]);
      assert roles[k] == rest[k - 1] && all[k] == lines[k - 1];
    }
  }

  /** `parse_comp_spec` makes role `k` from the `k`-th well-formed line, its key
      made fresh against the earlier roles' keys, and reports each line's
      warnings in line order. */
  lemma ParseCompSpecInOrder(spec: string)
    requires SpecLines(spec) != []
    ensures var shapes := ReadLines(SpecLines(spec), 1);
      var r := ParseCompSpec(spec);
      KeyedInOrder(RoleLines(shapes), r.0, {}) &&
      r.1 == LineWarnings(shapes) + (if r.0 == [] then [NoValidRole] else [])
  {
    AssignKeysInOrder(ReadLines(SpecLines(spec), 1), {});
  }
}
