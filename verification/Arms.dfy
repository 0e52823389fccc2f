/** The arms of an A/B plan: parsing, canonical keys, and the rule that no arm inherits a setting. */
module Arms {
  import opened Prelude

  type Text = seq<char>

  /** Settings in key order, each key once. */
  type Spec = seq<(Text, Text)>

  datatype Arm = Arm(name: Text, spec: Spec, key: Text)

  datatype ArmError =
    | NotKeyValue(arm: Text, setting: Text)
    | TooFewArms
    | Inherited(arm: Text, knob: Text)

  // ---- text -------------------------------------------------------------------------------------------------

  /** The first place a character stands, or the length. */
  function Find(s: Text, c: char): (i: nat)
    ensures i <= |s| && (i < |s| ==> s[i] == c) && c !in s[..i]
  {
    if s == [] || s[0] == c then 0
    else
      var i := Find(s[1..], c);
      assert s[..i + 1] == [s[0]] + s[1..][..i];
      i + 1
  }

  function Split(s: Text, sep: char): (parts: seq<Text>)
    ensures forall p :: p in parts ==> sep !in p && Within(p, s)
  {
    var i := Find(s, sep);
    if i == |s| then
      assert s[..i] == s;
      [s]
    else [s[..i]] + Split(s[i + 1..], sep)
  }

  /** Every character of one text occurs in the other. */
  predicate Within(p: Text, s: Text) {
    forall c :: c in p ==> c in s
  }

  function TrimLeft(s: Text, ws: char -> bool): (r: Text)
    ensures Within(r, s)
  {
    if s != [] && ws(s[0]) then TrimLeft(s[1..], ws) else s
  }

  function TrimRight(s: Text, ws: char -> bool): (r: Text)
    ensures Within(r, s)
  {
    if s != [] && ws(s[|s| - 1]) then TrimRight(s[..|s| - 1], ws) else s
  }

  function Trim(s: Text, ws: char -> bool): (r: Text)
    ensures Within(r, s)
  {
    TrimRight(TrimLeft(s, ws), ws)
  }

  function LowerChar(c: char): char {
    if 'A' <= c <= 'Z' then c + 32 as char else c
  }

  /** ASCII lower case; it makes no separators. */
  function Lower(s: Text): (r: Text)
    ensures |r| == |s|
    ensures forall c | c in [',', '='] :: c !in s ==> c !in r
  {
    seq(|s|, i requires 0 <= i < |s| => LowerChar(s[i]))
  }

  /** The non-blank pieces between separators. */
  function Pieces(s: Text, sep: char, ws: char -> bool): (parts: seq<Text>)
    ensures forall p :: p in parts ==> sep !in p && p != []
  {
    NonBlank(Split(s, sep), sep, ws)
  }

  function NonBlank(raw: seq<Text>, sep: char, ws: char -> bool): (parts: seq<Text>)
    requires forall p :: p in raw ==> sep !in p
    ensures forall p :: p in parts ==> sep !in p && p != []
  {
    if raw == [] then []
    else
      var t := Trim(raw[0], ws);
      (if t == [] then [] else [t]) + NonBlank(raw[1..], sep, ws)
  }

  // ---- settings ---------------------------------------------------------------------------------------------

  /** Order of texts, character by character. */
  predicate Before(a: Text, b: Text) {
    b != [] && (a == [] || a[0] < b[0] || (a[0] == b[0] && Before(a[1..], b[1..])))
  }

  lemma {:induction false} Trichotomy(a: Text, b: Text)
    ensures a == b || Before(a, b) || Before(b, a)
    ensures !(Before(a, b) && Before(b, a)) && !Before(a, a)
    decreases |a|
  {
    if a != [] && b != [] {
      Trichotomy(a[1..], b[1..]);
      Trichotomy(a[1..], a[1..]);
      assert a == [a[0]] + a[1..] && b == [b[0]] + b[1..];
    } else if a != [] {
      Trichotomy(a[1..], a[1..]);
    }
  }

  lemma {:induction false} BeforeIsTransitive(a: Text, b: Text, c: Text)
    requires Before(a, b) && Before(b, c)
    ensures Before(a, c)
    decreases |a|
  {
    if a != [] && a[0] == b[0] == c[0] {
      BeforeIsTransitive(a[1..], b[1..], c[1..]);
    }
  }

  predicate Sorted(spec: Spec) {
    forall i :: 0 < i < |spec| ==> Before(spec[i - 1].0, spec[i].0)
  }

  function Get(spec: Spec, k: Text): Option<Text> {
    if spec == [] then None else if spec[0].0 == k then Some(spec[0].1) else Get(spec[1..], k)
  }

  function Insert(spec: Spec, k: Text, v: Text): (r: Spec)
    ensures r != [] && (r[0].0 == k || (spec != [] && r[0].0 == spec[0].0))
  {
    if spec == [] then [(k, v)]
    else if spec[0].0 == k then [(k, v)] + spec[1..]
    else if Before(k, spec[0].0) then [(k, v)] + spec
    else [spec[0]] + Insert(spec[1..], k, v)
  }

  lemma {:induction false} InsertUpdates(spec: Spec, k: Text, v: Text, x: Text)
    ensures Get(Insert(spec, k, v), x) == if x == k then Some(v) else Get(spec, x)
  {
    if spec != [] && spec[0].0 != k && !Before(k, spec[0].0) {
      InsertUpdates(spec[1..], k, v, x);
    }
  }

  lemma {:induction false} InsertKeepsSorted(spec: Spec, k: Text, v: Text)
    requires Sorted(spec)
    ensures Sorted(Insert(spec, k, v))
  {
    if spec != [] && spec[0].0 != k && !Before(k, spec[0].0) {
      assert Sorted(spec[1..]);
      InsertKeepsSorted(spec[1..], k, v);
      Trichotomy(k, spec[0].0);
      assert |spec| > 1 ==> spec[1..][0] == spec[1];
    }
  }

  /** Earlier keys of a sorted spec do not occur later. */
  lemma {:induction false} FirstKeyIsLeast(spec: Spec, k: Text)
    requires spec != [] && Sorted(spec) && (k == spec[0].0 || Before(k, spec[0].0))
    ensures Get(spec[1..], k) == None
    decreases |spec|
  {
    var rest := spec[1..];
    if rest != [] {
      assert Before(spec[0].0, spec[1].0);
      if k != spec[0].0 {
        BeforeIsTransitive(k, spec[0].0, rest[0].0);
      }
      Trichotomy(k, rest[0].0);
      assert Sorted(rest);
      FirstKeyIsLeast(rest, k);
    }
  }

  /** Every setting, present or absent, is the same. */
  ghost predicate SameSettings(a: Spec, b: Spec) {
    forall k :: Get(a, k) == Get(b, k)
  }

  /** A sorted spec is determined by what it answers. */
  lemma {:induction false} SpecIsCanonical(a: Spec, b: Spec)
    requires Sorted(a) && Sorted(b)
    requires SameSettings(a, b)
    ensures a == b
    decreases |a|
  {
    var some := if a != [] then a[0].0 else if b != [] then b[0].0 else [];
    assert Get(a, some) == Get(b, some);
    if a == [] || b == [] {
    } else {
      var ka, kb := a[0].0, b[0].0;
      Trichotomy(ka, kb);
      assert Get(a, ka) == Get(b, ka) && Get(a, kb) == Get(b, kb);
      if Before(ka, kb) {
        FirstKeyIsLeast(b, ka);
      } else if Before(kb, ka) {
        FirstKeyIsLeast(a, kb);
      }
      forall x: Text
        ensures Get(a[1..], x) == Get(b[1..], x)
      {
        FirstKeyIsLeast(a, ka);
        FirstKeyIsLeast(b, kb);
        assert Get(a, x) == Get(b, x);
      }
      SpecIsCanonical(a[1..], b[1..]);
    }
  }

  // ---- canonical keys ---------------------------------------------------------------------------------------

  function Entry(e: (Text, Text)): Text {
    e.0 + ['='] + e.1
  }

  function KeyOf(spec: Spec): Text {
    if spec == [] then []
    else if |spec| == 1 then Entry(spec[0])
    else Entry(spec[0]) + [','] + KeyOf(spec[1..])
  }

  /** No separator inside a key or a value. */
  predicate Clean(spec: Spec) {
    forall e :: e in spec ==> '=' !in e.0 && ',' !in e.0 && ',' !in e.1
  }

  lemma {:induction false} FindAt(p: Text, q: Text, c: char)
    requires c !in p
    ensures Find(p + [c] + q, c) == |p|
  {
    var x := p + [c] + q;
    if p != [] {
      assert x[0] == p[0] && p[0] in p;
      assert x[1..] == p[1..] + [c] + q;
      FindAt(p[1..], q, c);
    }
  }

  /** Where a separator first stands, the text splits in one way. */
  lemma FirstCutIsUnique(p: Text, q: Text, r: Text, s: Text, c: char)
    requires c !in p && c !in r && p + [c] + q == r + [c] + s
    ensures p == r && q == s
  {
    FindAt(p, q, c);
    FindAt(r, s, c);
    var x, y := p + [c] + q, r + [c] + s;
    assert p == x[..|p|] && r == y[..|r|] && q == x[|p| + 1..] && s == y[|r| + 1..];
  }

  lemma EntryReadsBack(a: (Text, Text), b: (Text, Text))
    requires '=' !in a.0 && '=' !in b.0 && Entry(a) == Entry(b)
    ensures a == b
  {
    FirstCutIsUnique(a.0, a.1, b.0, b.1, '=');
  }

  /** A canonical key tells the settings it was made from. */
  lemma {:induction false} KeyIsInjective(a: Spec, b: Spec)
    requires Clean(a) && Clean(b) && KeyOf(a) == KeyOf(b)
    ensures a == b
    decreases |a|
  {
    if a != [] && b != [] {
      assert a[0] in a && b[0] in b;
      var x, y := Entry(a[0]), Entry(b[0]);
      assert ',' !in x && ',' !in y;
      if |a| > 1 {
        assert KeyOf(a)[|x|] == ',';
      }
      if |b| > 1 {
        assert KeyOf(b)[|y|] == ',';
      }
      if |a| > 1 && |b| > 1 {
        FirstCutIsUnique(x, KeyOf(a[1..]), y, KeyOf(b[1..]), ',');
        assert a[1] in a[1..] && b[1] in b[1..];
        KeyIsInjective(a[1..], b[1..]);
      } else {
        assert |a| > 1 ==> ',' in KeyOf(a);
        assert |b| > 1 ==> ',' in KeyOf(b);
      }
      EntryReadsBack(a[0], b[0]);
      assert a == [a[0]] + a[1..] && b == [b[0]] + b[1..];
    }
  }

  // ---- parsing ----------------------------------------------------------------------------------------------

  /** The spec with one more setting; the separator stands at `i`. */
  function WithSetting(spec: Spec, kv: Text, i: nat, ws: char -> bool): Spec
    requires i < |kv|
  {
    Insert(spec, Lower(Trim(kv[..i], ws)), Lower(Trim(kv[i + 1..], ws)))
  }

  function ReadSettings(arm: Text, pieces: seq<Text>, ws: char -> bool, spec: Spec): Result<Spec, ArmError>
    decreases |pieces|
  {
    if pieces == [] then Ok(spec)
    else
      var i := Find(pieces[0], '=');
      if i == |pieces[0]| then Err(NotKeyValue(arm, pieces[0]))
      else ReadSettings(arm, pieces[1..], ws, WithSetting(spec, pieces[0], i, ws))
  }

  /** An arm's name, before trimming, and the text of its settings. */
  function Halves(chunk: Text): (Text, Text) {
    var i := Find(chunk, ':');
    (chunk[..i], if i < |chunk| then chunk[i + 1..] else [])
  }

  function ReadArm(chunk: Text, ws: char -> bool): Result<Arm, ArmError> {
    var (name, rest) := Halves(chunk);
    match ReadSettings(name, Pieces(rest, ',', ws), ws, [])
    case Err(e) => Err(e)
    case Ok(spec) => Ok(Arm(Trim(name, ws), spec, KeyOf(spec)))
  }

  function ReadArms(chunks: seq<Text>, ws: char -> bool, arms: seq<Arm>): Result<seq<Arm>, ArmError>
    decreases |chunks|
  {
    if chunks == [] then Ok(arms)
    else
      match ReadArm(chunks[0], ws)
      case Err(e) => Err(e)
      case Ok(arm) => ReadArms(chunks[1..], ws, arms + [arm])
  }

  predicate WellFormed(arm: Arm) {
    Sorted(arm.spec) && Clean(arm.spec) && arm.key == KeyOf(arm.spec)
  }

  lemma {:induction false} InsertKeepsClean(spec: Spec, k: Text, v: Text)
    requires Clean(spec) && '=' !in k && ',' !in k && ',' !in v
    ensures Clean(Insert(spec, k, v))
  {
    if spec != [] && spec[0].0 != k && !Before(k, spec[0].0) {
      InsertKeepsClean(spec[1..], k, v);
    }
  }

  lemma SettingIsWellFormed(spec: Spec, kv: Text, i: nat, ws: char -> bool)
    requires Sorted(spec) && Clean(spec) && ',' !in kv && i == Find(kv, '=') < |kv|
    ensures Sorted(WithSetting(spec, kv, i, ws)) && Clean(WithSetting(spec, kv, i, ws))
  {
    var k, v := Lower(Trim(kv[..i], ws)), Lower(Trim(kv[i + 1..], ws));
    InsertKeepsSorted(spec, k, v);
    InsertKeepsClean(spec, k, v);
  }

  lemma {:induction false} SettingsAreWellFormed(arm: Text, pieces: seq<Text>, ws: char -> bool, spec: Spec)
    requires Sorted(spec) && Clean(spec) && forall p :: p in pieces ==> ',' !in p
    ensures var r := ReadSettings(arm, pieces, ws, spec); r.Ok? ==> Sorted(r.value) && Clean(r.value)
    decreases |pieces|
  {
    if pieces != [] {
      assert pieces[0] in pieces;
      var i := Find(pieces[0], '=');
      if i < |pieces[0]| {
        SettingIsWellFormed(spec, pieces[0], i, ws);
        SettingsAreWellFormed(arm, pieces[1..], ws, WithSetting(spec, pieces[0], i, ws));
      }
    }
  }

  lemma ArmIsWellFormed(chunk: Text, ws: char -> bool)
    ensures var r := ReadArm(chunk, ws); r.Ok? ==> WellFormed(r.value)
  {
    var (name, rest) := Halves(chunk);
    SettingsAreWellFormed(name, Pieces(rest, ',', ws), ws, []);
  }

  lemma {:induction false} ArmsAreWellFormed(chunks: seq<Text>, ws: char -> bool, arms: seq<Arm>)
    requires forall a :: a in arms ==> WellFormed(a)
    ensures var r := ReadArms(chunks, ws, arms); r.Ok? ==> forall a :: a in r.value ==> WellFormed(a)
    decreases |chunks|
  {
    if chunks != [] {
      ArmIsWellFormed(chunks[0], ws);
      var arm := ReadArm(chunks[0], ws);
      if arm.Ok? {
        ArmsAreWellFormed(chunks[1..], ws, arms + [arm.value]);
      }
    }
  }

  lemma WellFormedKeysAgree(a: Arm, b: Arm)
    requires WellFormed(a) && WellFormed(b)
    ensures a.key == b.key <==> SameSettings(a.spec, b.spec)
  {
    if a.key == b.key {
      KeyIsInjective(a.spec, b.spec);
    } else if SameSettings(a.spec, b.spec) {
      SpecIsCanonical(a.spec, b.spec);
    }
  }

  /** Two arms of a plan have the same canonical key exactly when every setting agrees: a sham pair. */
  lemma SameKeyMeansSameSettings(chunks: seq<Text>, ws: char -> bool, arms: seq<Arm>, a: Arm, b: Arm)
    requires ReadArms(chunks, ws, []) == Ok(arms) && a in arms && b in arms
    ensures a.key == b.key <==> SameSettings(a.spec, b.spec)
  {
    ArmsAreWellFormed(chunks, ws, []);
    WellFormedKeysAgree(a, b);
  }

  // ---- reading undoes rendering -----------------------------------------------------------------------------

  function Join(parts: seq<Text>, sep: char): Text {
    if parts == [] then [] else if |parts| == 1 then parts[0] else parts[0] + [sep] + Join(parts[1..], sep)
  }

  /** No piece of a split is lost: joined again they are the text. */
  lemma {:induction false} SplitJoins(s: Text, sep: char)
    ensures Split(s, sep) != [] && Join(Split(s, sep), sep) == s
    decreases |s|
  {
    var i := Find(s, sep);
    if i == |s| {
      assert s[..i] == s;
    } else {
      SplitJoins(s[i + 1..], sep);
      var rest := Split(s[i + 1..], sep);
      assert ([s[..i]] + rest)[1..] == rest;
      assert s == s[..i] + [sep] + s[i + 1..];
    }
  }

  /** A text with nothing to trim off. */
  predicate Trimmed(s: Text, ws: char -> bool) {
    s == [] || (!ws(s[0]) && !ws(s[|s| - 1]))
  }

  predicate AllBlank(s: Text, ws: char -> bool) {
    forall c :: c in s ==> ws(c)
  }

  lemma {:induction false} LeftCut(s: Text, ws: char -> bool) returns (pre: Text)
    ensures s == pre + TrimLeft(s, ws) && AllBlank(pre, ws)
    ensures TrimLeft(s, ws) == [] || !ws(TrimLeft(s, ws)[0])
  {
    if s != [] && ws(s[0]) {
      var rest := LeftCut(s[1..], ws);
      pre := [s[0]] + rest;
      assert s == [s[0]] + s[1..] && pre + TrimLeft(s, ws) == [s[0]] + (rest + TrimLeft(s[1..], ws));
    } else {
      pre := [];
    }
  }

  lemma {:induction false} RightCut(s: Text, ws: char -> bool) returns (post: Text)
    ensures s == TrimRight(s, ws) + post && AllBlank(post, ws)
    ensures TrimRight(s, ws) == [] || !ws(TrimRight(s, ws)[|TrimRight(s, ws)| - 1])
  {
    if s != [] && ws(s[|s| - 1]) {
      var n := |s| - 1;
      var rest := RightCut(s[..n], ws);
      post := rest + [s[n]];
      assert s == s[..n] + [s[n]] && TrimRight(s, ws) + post == TrimRight(s[..n], ws) + rest + [s[n]];
    } else {
      post := [];
    }
  }

  /** Trimming takes white space off both ends, all of it, and nothing else. */
  lemma TrimCutsEnds(s: Text, ws: char -> bool) returns (pre: Text, post: Text)
    ensures s == pre + Trim(s, ws) + post && AllBlank(pre, ws) && AllBlank(post, ws)
    ensures Trimmed(Trim(s, ws), ws)
  {
    pre := LeftCut(s, ws);
    var left := TrimLeft(s, ws);
    post := RightCut(left, ws);
    var t := TrimRight(left, ws);
    assert s == pre + (t + post);
    assert t != [] ==> t[0] == left[0];
  }

  lemma TrimOfTrimmed(s: Text, ws: char -> bool)
    requires Trimmed(s, ws)
    ensures Trim(s, ws) == s
  {
  }

  /** Capitals become their small letters, and no other character changes. */
  lemma LowerIsAscii(s: Text, i: nat)
    requires i < |s|
    ensures 'A' <= s[i] <= 'Z' ==> Lower(s)[i] as int - 'a' as int == s[i] as int - 'A' as int
    ensures !('A' <= s[i] <= 'Z') ==> Lower(s)[i] == s[i]
  {
  }

  lemma SplitFirst(a: Text, b: Text, sep: char)
    requires sep !in a
    ensures Split(a + [sep] + b, sep) == [a] + Split(b, sep)
  {
    var s := a + [sep] + b;
    FindAt(a, b, sep);
    assert s[..|a|] == a && s[|a| + 1..] == b;
  }

  lemma SplitNone(a: Text, sep: char)
    requires sep !in a
    ensures Split(a, sep) == [a]
  {
    assert a[..|a|] == a;
  }

  /** Pieces that survive: separator-free, trimmed, not blank. */
  predicate Survives(p: Text, sep: char, ws: char -> bool) {
    sep !in p && p != [] && Trimmed(p, ws)
  }

  lemma NonBlankCons(a: Text, rest: seq<Text>, sep: char, ws: char -> bool)
    requires Survives(a, sep, ws) && forall p :: p in rest ==> sep !in p
    ensures NonBlank([a] + rest, sep, ws) == [a] + NonBlank(rest, sep, ws)
  {
    TrimOfTrimmed(a, ws);
    assert ([a] + rest)[1..] == rest;
  }

  /** Joined pieces are found again. */
  lemma {:induction false} PiecesOfJoin(parts: seq<Text>, sep: char, ws: char -> bool)
    requires forall p :: p in parts ==> Survives(p, sep, ws)
    ensures Pieces(Join(parts, sep), sep, ws) == parts
  {
    if parts == [] {
      TrimOfTrimmed([], ws);
      assert Split([], sep) == [[]] && NonBlank([[]][1..], sep, ws) == [];
    } else {
      var a, rest := parts[0], parts[1..];
      assert a in parts && parts == [a] + rest;
      if rest == [] {
        SplitNone(a, sep);
        NonBlankCons(a, [], sep, ws);
        assert [a] + [] == [a];
      } else {
        PiecesOfJoin(rest, sep, ws);
        SplitFirst(a, Join(rest, sep), sep);
        NonBlankCons(a, Split(Join(rest, sep), sep), sep, ws);
      }
    }
  }

  // ---- arms as they are written -----------------------------------------------------------------------------

  function Entries(spec: Spec): (r: seq<Text>)
    ensures |r| == |spec| && forall i :: 0 <= i < |spec| ==> r[i] == Entry(spec[i])
  {
    seq(|spec|, i requires 0 <= i < |spec| => Entry(spec[i]))
  }

  lemma {:induction false} KeyIsJoined(spec: Spec)
    ensures KeyOf(spec) == Join(Entries(spec), ',')
  {
    if |spec| > 1 {
      KeyIsJoined(spec[1..]);
      assert Entries(spec)[1..] == Entries(spec[1..]);
    }
  }

  /** A setting as a plan would write it: small letters, nothing to trim, no separator in the wrong place. */
  predicate PlainEntry(e: (Text, Text), ws: char -> bool) {
    && Lower(e.0) == e.0 && Lower(e.1) == e.1 && Trimmed(e.0, ws) && Trimmed(e.1, ws)
    && '=' !in e.0 && ',' !in e.0 && ',' !in e.1 && '|' !in e.0 && '|' !in e.1
  }

  predicate PlainArm(arm: Arm, ws: char -> bool) {
    && Trimmed(arm.name, ws) && ':' !in arm.name && '|' !in arm.name
    && Sorted(arm.spec) && arm.key == KeyOf(arm.spec)
    && forall e :: e in arm.spec ==> PlainEntry(e, ws)
  }

  function Rendered(arm: Arm): Text {
    arm.name + [':'] + KeyOf(arm.spec)
  }

  lemma EntrySurvives(e: (Text, Text), ws: char -> bool)
    requires PlainEntry(e, ws) && !ws('=')
    ensures Survives(Entry(e), ',', ws) && '|' !in Entry(e)
    ensures Find(Entry(e), '=') == |e.0| < |Entry(e)|
    ensures Entry(e)[..|e.0|] == e.0 && Entry(e)[|e.0| + 1..] == e.1
  {
    FindAt(e.0, e.1, '=');
    var t := Entry(e);
    assert t[0] == if e.0 == [] then '=' else e.0[0];
    assert t[|t| - 1] == if e.1 == [] then '=' else e.1[|e.1| - 1];
  }

  lemma {:induction false} SortedKeys(spec: Spec, i: nat, j: nat)
    requires Sorted(spec) && i < j < |spec|
    ensures Before(spec[i].0, spec[j].0)
    decreases j
  {
    if i < j - 1 {
      SortedKeys(spec, i, j - 1);
      BeforeIsTransitive(spec[i].0, spec[j - 1].0, spec[j].0);
    }
  }

  lemma {:induction false} InsertAtEnd(spec: Spec, k: Text, v: Text)
    requires forall i :: 0 <= i < |spec| ==> Before(spec[i].0, k)
    ensures Insert(spec, k, v) == spec + [(k, v)]
  {
    if spec != [] {
      Trichotomy(spec[0].0, k);
      InsertAtEnd(spec[1..], k, v);
      assert spec == [spec[0]] + spec[1..];
    }
  }

  lemma EntryAppends(spec: Spec, ws: char -> bool, i: nat)
    requires Sorted(spec) && i < |spec| && !ws('=') && PlainEntry(spec[i], ws)
    ensures Find(Entry(spec[i]), '=') == |spec[i].0| < |Entry(spec[i])|
    ensures WithSetting(spec[..i], Entry(spec[i]), |spec[i].0|, ws) == spec[..i + 1]
  {
    var (k, v) := spec[i];
    EntrySurvives(spec[i], ws);
    TrimOfTrimmed(k, ws);
    TrimOfTrimmed(v, ws);
    forall j | 0 <= j < i
      ensures Before(spec[j].0, k)
    {
      SortedKeys(spec, j, i);
    }
    InsertAtEnd(spec[..i], k, v);
    assert spec[..i] + [spec[i]] == spec[..i + 1];
  }

  lemma NextSetting(name: Text, e: Text, rest: seq<Text>, ws: char -> bool, spec: Spec, next: Spec, k: nat)
    requires Find(e, '=') == k < |e| && WithSetting(spec, e, k, ws) == next
    ensures ReadSettings(name, [e] + rest, ws, spec) == ReadSettings(name, rest, ws, next)
  {
    assert ([e] + rest)[1..] == rest;
  }

  /** The settings of an arm, from place `i` on, read on to the whole. */
  lemma {:induction false} EntriesRead(name: Text, spec: Spec, ws: char -> bool, i: nat)
    requires Sorted(spec) && i <= |spec| && !ws('=') && forall e :: e in spec ==> PlainEntry(e, ws)
    ensures ReadSettings(name, Entries(spec)[i..], ws, spec[..i]) == Ok(spec)
    decreases |spec| - i
  {
    if i == |spec| {
      assert spec[..i] == spec && Entries(spec)[i..] == [];
    } else {
      var e, rest := Entry(spec[i]), Entries(spec)[i + 1..];
      assert spec[i] in spec && Entries(spec)[i..] == [e] + rest;
      EntryAppends(spec, ws, i);
      NextSetting(name, e, rest, ws, spec[..i], spec[..i + 1], |spec[i].0|);
      EntriesRead(name, spec, ws, i + 1);
    }
  }

  lemma SpecReads(name: Text, spec: Spec, ws: char -> bool)
    requires Sorted(spec) && !ws('=') && forall e :: e in spec ==> PlainEntry(e, ws)
    ensures ReadSettings(name, Pieces(KeyOf(spec), ',', ws), ws, []) == Ok(spec)
    ensures '|' !in KeyOf(spec) && Trimmed(KeyOf(spec), ws)
  {
    KeyIsJoined(spec);
    forall p | p in Entries(spec)
      ensures Survives(p, ',', ws) && '|' !in p
    {
      var i :| 0 <= i < |spec| && Entries(spec)[i] == p;
      assert spec[i] in spec;
      EntrySurvives(spec[i], ws);
    }
    PiecesOfJoin(Entries(spec), ',', ws);
    JoinIsTrimmed(Entries(spec), ',', ws);
    assert spec[..0] == [] && Entries(spec)[0..] == Entries(spec);
    EntriesRead(name, spec, ws, 0);
  }

  lemma {:induction false} JoinIsTrimmed(parts: seq<Text>, sep: char, ws: char -> bool)
    requires sep != '|' && forall p :: p in parts ==> Survives(p, sep, ws) && '|' !in p
    ensures '|' !in Join(parts, sep) && Trimmed(Join(parts, sep), ws)
    ensures parts != [] ==> Join(parts, sep) != []
  {
    if parts != [] {
      assert parts[0] in parts;
      if |parts| > 1 {
        JoinIsTrimmed(parts[1..], sep, ws);
      }
    }
  }

  lemma HalvesOfRendered(arm: Arm)
    requires ':' !in arm.name
    ensures Halves(Rendered(arm)) == (arm.name, KeyOf(arm.spec))
  {
    var t, key := Rendered(arm), KeyOf(arm.spec);
    FindAt(arm.name, key, ':');
    assert t[..|arm.name|] == arm.name && t[|arm.name| + 1..] == key;
  }

  lemma ArmReads(arm: Arm, ws: char -> bool)
    requires PlainArm(arm, ws) && !ws('=')
    ensures ReadArm(Rendered(arm), ws) == Ok(arm)
  {
    HalvesOfRendered(arm);
    SpecReads(arm.name, arm.spec, ws);
    TrimOfTrimmed(arm.name, ws);
  }

  lemma ArmSurvives(arm: Arm, ws: char -> bool)
    requires PlainArm(arm, ws) && !ws('=') && !ws(':')
    ensures Survives(Rendered(arm), '|', ws)
  {
    var t, key := Rendered(arm), KeyOf(arm.spec);
    SpecReads(arm.name, arm.spec, ws);
    assert t[0] == if arm.name == [] then ':' else arm.name[0];
    assert t[|t| - 1] == if key == [] then ':' else key[|key| - 1];
  }

  lemma NextArm(chunks: seq<Text>, ws: char -> bool, arms: seq<Arm>, arm: Arm)
    requires chunks != [] && ReadArm(chunks[0], ws) == Ok(arm)
    ensures ReadArms(chunks, ws, arms) == ReadArms(chunks[1..], ws, arms + [arm])
  {
  }

  function AllRendered(arms: seq<Arm>): (r: seq<Text>)
    ensures |r| == |arms| && forall i :: 0 <= i < |arms| ==> r[i] == Rendered(arms[i])
  {
    seq(|arms|, i requires 0 <= i < |arms| => Rendered(arms[i]))
  }

  lemma Advance<T>(s: seq<T>, i: nat)
    requires i < |s|
    ensures s[..i] + [s[i]] == s[..i + 1] && s[i..][0] == s[i] && s[i..][1..] == s[i + 1..]
  {
  }

  /** The chunks from `i` on, after the arms before. */
  lemma {:induction false} ChunksRead(chunks: seq<Text>, arms: seq<Arm>, ws: char -> bool, i: nat)
    requires i <= |chunks| == |arms| && forall j | 0 <= j < |arms| :: ReadArm(chunks[j], ws) == Ok(arms[j])
    ensures ReadArms(chunks[i..], ws, arms[..i]) == Ok(arms)
    decreases |arms| - i
  {
    if i == |arms| {
      assert arms[..i] == arms;
    } else {
      Advance(arms, i);
      Advance(chunks, i);
      NextArm(chunks[i..], ws, arms[..i], arms[i]);
      ChunksRead(chunks, arms, ws, i + 1);
    }
  }

  /** A plan written out, arm by arm as `name:key=value,...`, reads as the same arms. */
  lemma {:induction false} PlanReadsBack(arms: seq<Arm>, ws: char -> bool)
    requires !ws('=') && !ws(':') && forall a :: a in arms ==> PlainArm(a, ws)
    ensures ReadArms(Pieces(Join(AllRendered(arms), '|'), '|', ws), ws, []) == Ok(arms)
  {
    forall p | p in AllRendered(arms)
      ensures Survives(p, '|', ws)
    {
      var i :| 0 <= i < |arms| && AllRendered(arms)[i] == p;
      assert arms[i] in arms;
      ArmSurvives(arms[i], ws);
    }
    PiecesOfJoin(AllRendered(arms), '|', ws);
    forall i | 0 <= i < |arms|
      ensures ReadArm(AllRendered(arms)[i], ws) == Ok(arms[i])
    {
      ArmReads(arms[i], ws);
    }
    ChunksRead(AllRendered(arms), arms, ws, 0);
    assert AllRendered(arms)[0..] == AllRendered(arms) && arms[..0] == [];
  }

  // ---- no inherited settings --------------------------------------------------------------------------------

  predicate Mentions(arm: Arm, k: Text) {
    Get(arm.spec, k).Some?
  }

  ghost predicate NoneInherits(arms: seq<Arm>) {
    forall a, b, k :: a in arms && b in arms && Mentions(a, k) ==> Mentions(b, k)
  }

  /** The keys of a spec, in order. */
  function Keys(spec: Spec): (ks: seq<Text>)
    ensures |ks| == |spec| && forall i :: 0 <= i < |spec| ==> ks[i] == spec[i].0
  {
    seq(|spec|, i requires 0 <= i < |spec| => spec[i].0)
  }

  /** Every key a plan sets, arm by arm, repeats included. */
  function Named(arms: seq<Arm>): seq<Text> {
    if arms == [] then [] else Named(arms[..|arms| - 1]) + Keys(arms[|arms| - 1].spec)
  }

  /** Adds the keys that are not known yet, in the order they come. */
  function Union(known: seq<Text>, keys: seq<Text>): seq<Text>
    decreases |keys|
  {
    if keys == [] then known
    else Union(if keys[0] in known then known else known + [keys[0]], keys[1..])
  }

  lemma {:induction false} UnionInParts(known: seq<Text>, a: seq<Text>, b: seq<Text>)
    ensures Union(known, a + b) == Union(Union(known, a), b)
    decreases |a|
  {
    if a == [] {
      assert a + b == b;
    } else {
      assert (a + b)[1..] == a[1..] + b;
      UnionInParts(if a[0] in known then known else known + [a[0]], a[1..], b);
    }
  }

  /** The first place whose knob an arm does not mention, or the length. */
  function FirstMissing(arm: Arm, knobs: seq<Text>): (p: nat)
    ensures p <= |knobs| && (p < |knobs| ==> !Mentions(arm, knobs[p]))
    ensures forall q :: 0 <= q < p ==> Mentions(arm, knobs[q])
  {
    if knobs == [] || !Mentions(arm, knobs[0]) then 0 else 1 + FirstMissing(arm, knobs[1..])
  }

  function Missing(arm: Arm, knobs: seq<Text>): Option<Text> {
    var p := FirstMissing(arm, knobs);
    if p < |knobs| then Some(knobs[p]) else None
  }

  lemma {:induction false} MissingInParts(arm: Arm, a: seq<Text>, b: seq<Text>)
    ensures Missing(arm, a + b) == if Missing(arm, a).Some? then Missing(arm, a) else Missing(arm, b)
  {
    if a == [] {
      assert a + b == b;
    } else {
      assert (a + b)[1..] == a[1..] + b;
      MissingInParts(arm, a[1..], b);
    }
  }

  /** A knob that came before is never the first to be missed. */
  lemma RepeatIsHarmless(arm: Arm, known: seq<Text>, k: Text, keys: seq<Text>)
    requires k in known
    ensures Missing(arm, known + keys) == Missing(arm, known + [k] + keys)
  {
    MissingInParts(arm, known, keys);
    MissingInParts(arm, known + [k], keys);
    MissingInParts(arm, known, [k]);
  }

  /** Leaving out repeats does not change which knob is missed first. */
  lemma {:induction false} MissingFromUnion(arm: Arm, known: seq<Text>, keys: seq<Text>)
    ensures Missing(arm, Union(known, keys)) == Missing(arm, known + keys)
    decreases |keys|
  {
    if keys == [] {
      assert known + keys == known;
    } else {
      var k := keys[0];
      assert known + keys == known + [k] + keys[1..];
      if k in known {
        RepeatIsHarmless(arm, known, k, keys[1..]);
      }
      MissingFromUnion(arm, if k in known then known else known + [k], keys[1..]);
    }
  }

  lemma {:induction false} MentionsItsKeys(spec: Spec, k: Text)
    ensures Get(spec, k).Some? <==> k in Keys(spec)
  {
    if spec != [] {
      MentionsItsKeys(spec[1..], k);
      assert Keys(spec) == [spec[0].0] + Keys(spec[1..]);
    }
  }

  lemma {:induction false} NamedAreMentioned(arms: seq<Arm>, k: Text)
    ensures k in Named(arms) <==> exists a :: a in arms && Mentions(a, k)
  {
    if arms != [] {
      var n := |arms| - 1;
      NamedAreMentioned(arms[..n], k);
      MentionsItsKeys(arms[n].spec, k);
      assert arms == arms[..n] + [arms[n]];
      assert arms[n] in arms;
    }
  }

  /** Adds one arm's keys to the list of all knobs. */
  method AddKnobs(arm: Arm, known: seq<Text>) returns (all: seq<Text>)
    ensures all == Union(known, Keys(arm.spec))
  {
    all := known;
    for j := 0 to |arm.spec|
      invariant Union(all, Keys(arm.spec)[j..]) == Union(known, Keys(arm.spec))
    {
      var k := arm.spec[j].0;
      assert Keys(arm.spec)[j..] == [k] + Keys(arm.spec)[j + 1..];
      if k !in all {
        all := all + [k];
      }
    }
  }

  method AllKnobs(arms: seq<Arm>) returns (all: seq<Text>)
    ensures all == Union([], Named(arms))
  {
    all := [];
    for j := 0 to |arms|
      invariant all == Union([], Named(arms[..j]))
    {
      assert arms[..j + 1][..j] == arms[..j];
      UnionInParts([], Named(arms[..j]), Keys(arms[j].spec));
      all := AddKnobs(arms[j], all);
    }
    assert arms[..|arms|] == arms;
  }

  /** The first knob of a list that an arm does not mention. */
  method MissingKnob(arm: Arm, knobs: seq<Text>) returns (r: Option<Text>)
    ensures r == Missing(arm, knobs)
  {
    for j := 0 to |knobs|
      invariant j <= FirstMissing(arm, knobs)
    {
      if !Mentions(arm, knobs[j]) {
        return Some(knobs[j]);
      }
    }
    return None;
  }

  /**
   * Arm `j` is the first to leave out a knob some arm sets, and the knob at place `p` is the first
   * one it leaves out.
   */
  ghost predicate FirstLack(arms: seq<Arm>, j: nat, p: nat) {
    && j < |arms| && p < |Named(arms)| && p == FirstMissing(arms[j], Named(arms))
    && forall i :: 0 <= i < j ==> FirstMissing(arms[i], Named(arms)) == |Named(arms)|
  }

  /** There is one such place at most, and one exactly when some arm inherits. */
  lemma FirstLackIsUnique(arms: seq<Arm>, j: nat, p: nat, j': nat, p': nat)
    requires FirstLack(arms, j, p)
    ensures !NoneInherits(arms)
    ensures FirstLack(arms, j', p') ==> j' == j && p' == p
  {
    NamedAreMentioned(arms, Named(arms)[p]);
  }

  lemma NothingMissing(arms: seq<Arm>)
    requires forall i :: 0 <= i < |arms| ==> FirstMissing(arms[i], Named(arms)) == |Named(arms)|
    ensures NoneInherits(arms)
  {
    forall a, b, k | a in arms && b in arms && Mentions(a, k)
      ensures Mentions(b, k)
    {
      NamedAreMentioned(arms, k);
      var j :| 0 <= j < |arms| && arms[j] == b;
      var q :| 0 <= q < |Named(arms)| && Named(arms)[q] == k;
      assert q < FirstMissing(arms[j], Named(arms));
    }
  }

  /** What the check reports at a place. */
  function Complaint(arms: seq<Arm>, j: nat, p: nat): ArmError
    requires j < |arms| && p < |Named(arms)|
  {
    Inherited(arms[j].name, Named(arms)[p])
  }

  method CheckComplete(arms: seq<Arm>) returns (r: Option<ArmError>)
    ensures r.None? <==> NoneInherits(arms)
    ensures r.Some? ==> exists j: nat, p: nat :: FirstLack(arms, j, p) && r == Some(Complaint(arms, j, p))
  {
    var knobs := AllKnobs(arms);
    for j := 0 to |arms|
      invariant forall i :: 0 <= i < j ==> FirstMissing(arms[i], Named(arms)) == |Named(arms)|
    {
      var missing := MissingKnob(arms[j], knobs);
      MissingFromUnion(arms[j], [], Named(arms));
      assert [] + Named(arms) == Named(arms);
      if missing.Some? {
        ghost var p := FirstMissing(arms[j], Named(arms));
        FirstLackIsUnique(arms, j, p, j, p);
        r := Some(Inherited(arms[j].name, missing.value));
        assert r == Some(Complaint(arms, j, p));
        return;
      }
    }
    NothingMissing(arms);
    return None;
  }

  method ReadSettingsLoop(arm: Text, pieces: seq<Text>, ws: char -> bool) returns (r: Result<Spec, ArmError>)
    ensures r == ReadSettings(arm, pieces, ws, [])
  {
    var spec: Spec := [];
    for j := 0 to |pieces|
      invariant ReadSettings(arm, pieces[j..], ws, spec) == ReadSettings(arm, pieces, ws, [])
    {
      var kv := pieces[j];
      assert pieces[j..][1..] == pieces[j + 1..];
      var i := Find(kv, '=');
      if i == |kv| {
        return Err(NotKeyValue(arm, kv));
      }
      spec := WithSetting(spec, kv, i, ws);
    }
    return Ok(spec);
  }

  method ReadArmsLoop(chunks: seq<Text>, ws: char -> bool) returns (r: Result<seq<Arm>, ArmError>)
    ensures r == ReadArms(chunks, ws, [])
  {
    var arms: seq<Arm> := [];
    for j := 0 to |chunks|
      invariant ReadArms(chunks[j..], ws, arms) == ReadArms(chunks, ws, [])
    {
      var chunk := chunks[j];
      assert chunks[j..][1..] == chunks[j + 1..];
      var (name, rest) := Halves(chunk);
      var spec := ReadSettingsLoop(name, Pieces(rest, ',', ws), ws);
      if spec.Err? {
        return Err(spec.error);
      }
      arms := arms + [Arm(Trim(name, ws), spec.value, KeyOf(spec.value))];
    }
    return Ok(arms);
  }

  /** A plan is accepted exactly when it reads, has two arms, and every arm sets every knob any arm sets. */
  method ParseArms(s: Text, ws: char -> bool) returns (r: Result<seq<Arm>, ArmError>)
    ensures var read := ReadArms(Pieces(s, '|', ws), ws, []);
            && (r.Ok? <==> read.Ok? && |read.value| >= 2 && NoneInherits(read.value))
            && (r.Ok? ==> r == read)
            && (read.Err? ==> r == Err(read.error))
            && (read.Ok? && |read.value| < 2 ==> r == Err(TooFewArms))
            && (read.Ok? && |read.value| >= 2 && r.Err? ==>
                  exists j: nat, p: nat :: FirstLack(read.value, j, p) && r == Err(Complaint(read.value, j, p)))
  {
    r := ReadArmsLoop(Pieces(s, '|', ws), ws);
    if r.Err? {
      return;
    }
    if |r.value| < 2 {
      return Err(TooFewArms);
    }
    var missing := CheckComplete(r.value);
    if missing.Some? {
      ghost var j: nat, p: nat :| FirstLack(r.value, j, p) && missing == Some(Complaint(r.value, j, p));
      return Err(missing.value);
    }
  }
}
