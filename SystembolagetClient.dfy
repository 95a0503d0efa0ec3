/**
 * The Python client's product-URL builder and the loop that attaches the URL
 * to every product of a parsed listing. Products are parsed JSON objects; the
 * text folding (Unicode NFKD, then dropping what is not ASCII) and Python's
 * `str()` of a float or a container are supplied by the host.
 */
module SystembolagetClient {
  import opened Wrappers
  import opened Text
  import Seqs

  /** A value parsed by `json.loads`. */
  datatype Json =
    | JNull
    | JBool(b: bool)
    | JInt(i: int)
    | JFloat(f: real)
    | JStr(s: string)
    | JList(items: seq<Json>)
    | JObj(fields: map<string, Json>)

  /** One product: a JSON object. */
  type Product = map<string, Json>

  /** Python truth value: None, False, zero and empty containers are false. */
  predicate Truthy(v: Json) {
    match v
    case JNull => false
    case JBool(b) => b
    case JInt(i) => i != 0
    case JFloat(f) => f != 0.0
    case JStr(s) => s != ""
    case JList(xs) => xs != []
    case JObj(m) => m != map[]
  }

  /** `dict.get(key, default)`. */
  function Get(p: Product, key: string, default: Json): Json {
    if key in p then p[key] else default
  }

  /**
   * The library behaviour the builder relies on: `fold` is
   * `unicodedata.normalize("NFKD", s).encode("ascii", "ignore").decode()`,
   * `repr` is `str()` of a float, list or dict.
   */
  datatype Host = Host(fold: string -> string, repr: Json -> string) {
    /** Folding yields ASCII and leaves ASCII text as it is. */
    ghost predicate Valid() {
      forall s :: IsAscii(fold(s)) && (IsAscii(s) ==> fold(s) == s)
    }
  }

  /** Python's `str()` of a JSON value. */
  function PyStr(v: Json, host: Host): (r: string)
    ensures v.JInt? ==> IsAscii(r)
  {
    match v
    case JStr(s) => s
    case JInt(i) => IntText(i)
    case JBool(b) => if b then "True" else "False"
    case JNull => "None"
    case _ => host.repr(v)
  }

  // ---------------------------------------------------------------------
  // str.strip()
  // ---------------------------------------------------------------------

  /** The characters `str.isspace` accepts. */
  predicate IsPySpace(c: char) {
    ('\t' <= c <= '\r') || ('\U{1C}' <= c <= ' ') || c == '\U{85}' || c == '\U{A0}' ||
    c == '\U{1680}' || ('\U{2000}' <= c <= '\U{200A}') || c == '\U{2028}' || c == '\U{2029}' ||
    c == '\U{202F}' || c == '\U{205F}' || c == '\U{3000}'
  }

  /** Every character of `t` is white space. */
  predicate AllSpace(t: string) {
    forall i :: 0 <= i < |t| ==> IsPySpace(t[i])
  }

  /** `s` without its leading white space. */
  function StripLeft(s: string): (r: string)
    ensures |r| <= |s| && r == s[|s| - |r|..]
    ensures AllSpace(s[..|s| - |r|])
    ensures r != [] ==> !IsPySpace(r[0])
  {
    if s != [] && IsPySpace(s[0]) then
      var r := StripLeft(s[1..]);
      assert s[1..][|s| - 1 - |r|..] == s[|s| - |r|..];
      SpaceInFront(s, |s| - 1 - |r|);
      r
    else s
  }

  /** `s` without its trailing white space. */
  function StripRight(s: string): (r: string)
    ensures |r| <= |s| && r == s[..|r|]
    ensures AllSpace(s[|r|..])
    ensures r != [] ==> !IsPySpace(r[|r| - 1])
  {
    if s != [] && IsPySpace(s[|s| - 1]) then
      var r := StripRight(s[..|s| - 1]);
      assert s[..|s| - 1][..|r|] == s[..|r|];
      SpaceBehind(s, |r|);
      r
    else s
  }

  /**
   * `s.strip()`: the run of `s` left after dropping white space at both ends,
   * which neither starts nor ends with white space.
   */
  function PyStrip(s: string): (r: string)
    ensures exists a, b :: 0 <= a <= b <= |s| && r == s[a..b] && Stripped(s, a, b)
    ensures r != [] ==> !IsPySpace(r[0]) && !IsPySpace(r[|r| - 1])
  {
    StripsWindow(s);
    StripRight(StripLeft(s))
  }

  lemma StripsWindow(s: string)
    ensures var r := StripRight(StripLeft(s));
      exists a, b :: 0 <= a <= b <= |s| && r == s[a..b] && Stripped(s, a, b)
    ensures var r := StripRight(StripLeft(s));
      r != [] ==> !IsPySpace(r[0]) && !IsPySpace(r[|r| - 1])
  {
    var l := StripLeft(s);
    var r := StripRight(l);
    assert r != [] ==> r[0] == l[0];
    WindowOfStrips(s, l, r);
  }

  /** One more white space character in front of an all-space prefix. */
  lemma SpaceInFront(s: string, k: nat)
    requires k < |s| && IsPySpace(s[0]) && AllSpace(s[1..][..k])
    ensures AllSpace(s[..k + 1])
  {
    var front, rest := s[..k + 1], s[1..][..k];
    forall i | 0 < i < |front|
      ensures IsPySpace(front[i])
    {
      assert front[i] == rest[i - 1];
    }
  }

  /** One more white space character behind an all-space suffix. */
  lemma SpaceBehind(s: string, k: nat)
    requires k < |s| && IsPySpace(s[|s| - 1]) && AllSpace(s[..|s| - 1][k..])
    ensures AllSpace(s[k..])
  {
    assert forall i :: 0 <= i < |s| - 1 - k ==> s[k..][i] == s[..|s| - 1][k..][i];
  }

  /**
   * A prefix `r` of a suffix `l` of `s`, with only white space cut off, is
   * the window of `s` that starts where `l` does.
   */
  lemma WindowOfStrips(s: string, l: string, r: string)
    requires |l| <= |s| && l == s[|s| - |l|..] && AllSpace(s[..|s| - |l|])
    requires |r| <= |l| && r == l[..|r|] && AllSpace(l[|r|..])
    ensures r == s[|s| - |l|..|s| - |l| + |r|] && Stripped(s, |s| - |l|, |s| - |l| + |r|)
  {
    var a := |s| - |l|;
    assert s[a..][..|r|] == s[a..a + |r|];
    assert s[a..][|r|..] == s[a + |r|..];
  }

  /** Only white space lies outside `s[a..b]`. */
  predicate Stripped(s: string, a: nat, b: nat)
    requires a <= b <= |s|
  {
    AllSpace(s[..a]) && AllSpace(s[b..])
  }

  // ---------------------------------------------------------------------
  // The slugifier: re.sub(r"[^a-z0-9]+", "-", s).strip("-")
  // ---------------------------------------------------------------------

  /** The character class `[a-z0-9]`. */
  predicate IsSlugChar(c: char) {
    ('a' <= c <= 'z') || ('0' <= c <= '9')
  }

  /** Every character is in `[a-z0-9]` or is a hyphen. */
  predicate SlugCharsOnly(s: string) {
    forall i :: 0 <= i < |s| ==> IsSlugChar(s[i]) || s[i] == '-'
  }

  predicate NoDoubleHyphen(s: string) {
    forall i :: 0 < i < |s| ==> !(s[i - 1] == '-' && s[i] == '-')
  }

  /** A well-formed slug: `[a-z0-9-]` only, no `--`, no hyphen at either end. */
  predicate IsSlug(s: string) {
    && SlugCharsOnly(s)
    && NoDoubleHyphen(s)
    && (s != [] ==> s[0] != '-' && s[|s| - 1] != '-')
  }

  /** `s` without its leading run of characters outside `[a-z0-9]`. */
  function DropRun(s: string): (r: string)
    ensures |r| <= |s| && r == s[|s| - |r|..]
    ensures r != [] ==> IsSlugChar(r[0])
  {
    if s != [] && !IsSlugChar(s[0]) then
      var r := DropRun(s[1..]);
      assert s[1..][|s| - 1 - |r|..] == s[|s| - |r|..];
      r
    else s
  }

  /** `re.sub(r"[^a-z0-9]+", "-", s)`: every maximal run outside `[a-z0-9]` becomes one hyphen. */
  function Sub(s: string): (r: string)
    decreases |s|
  {
    if s == [] then []
    else if IsSlugChar(s[0]) then [s[0]] + Sub(s[1..])
    else "-" + Sub(DropRun(s[1..]))
  }

  function TrimLeftHyphens(s: string): (r: string)
    ensures |r| <= |s| && r == s[|s| - |r|..]
    ensures r != [] ==> r[0] != '-'
  {
    if s != [] && s[0] == '-' then TrimLeftHyphens(s[1..]) else s
  }

  function TrimRightHyphens(s: string): (r: string)
    ensures |r| <= |s| && r == s[..|r|]
    ensures r != [] ==> r[|r| - 1] != '-'
  {
    if s != [] && s[|s| - 1] == '-' then TrimRightHyphens(s[..|s| - 1]) else s
  }

  /** `s.strip("-")`. */
  function TrimHyphens(s: string): string {
    TrimRightHyphens(TrimLeftHyphens(s))
  }

  /** The slug step after folding: lower-case, collapse runs outside `[a-z0-9]` to `-`, strip hyphens. */
  function SlugText(s: string): string {
    TrimHyphens(Sub(ToLower(s)))
  }

  /** `slugify(name)`: fold to ASCII, then the slug step. */
  function Slugify(name: string, host: Host): string {
    SlugText(host.fold(name))
  }

  /** Sub yields only `[a-z0-9-]`, never two hyphens in a row, and starts as its input does. */
  lemma {:induction false} SubShape(s: string)
    ensures SlugCharsOnly(Sub(s)) && NoDoubleHyphen(Sub(s))
    ensures Sub(s) == [] <==> s == []
    ensures s != [] && IsSlugChar(s[0]) ==> Sub(s)[0] == s[0]
    decreases |s|
  {
    if s != [] {
      if IsSlugChar(s[0]) {
        SubShape(s[1..]);
        ConsShape(s[0], Sub(s[1..]));
      } else {
        var t := DropRun(s[1..]);
        SubShape(t);
        ConsShape('-', Sub(t));
      }
    }
  }

  /** A slug character, or a hyphen not followed by one, in front of a hyphen-collapsed text. */
  lemma ConsShape(c: char, t: string)
    requires IsSlugChar(c) || (c == '-' && (t == [] || t[0] != '-'))
    requires SlugCharsOnly(t) && NoDoubleHyphen(t)
    ensures SlugCharsOnly([c] + t) && NoDoubleHyphen([c] + t)
  {
    var r := [c] + t;
    assert forall i :: 0 < i < |r| ==> r[i] == t[i - 1];
  }

  lemma SuffixKeepsShape(s: string, k: nat)
    requires k <= |s| && SlugCharsOnly(s) && NoDoubleHyphen(s)
    ensures SlugCharsOnly(s[k..]) && NoDoubleHyphen(s[k..])
  {
    assert forall i :: 0 <= i < |s| - k ==> s[k..][i] == s[k + i];
  }

  /** Stripping the hyphens at the ends of a hyphen-collapsed text leaves a slug. */
  lemma TrimShape(s: string)
    requires SlugCharsOnly(s) && NoDoubleHyphen(s)
    ensures IsSlug(TrimHyphens(s))
  {
    var l := TrimLeftHyphens(s);
    SuffixKeepsShape(s, |s| - |l|);
    var r := TrimRightHyphens(l);
    PrefixKeepsShape(l, |r|);
    assert r != [] ==> r[0] == l[0];
  }

  lemma PrefixKeepsShape(s: string, k: nat)
    requires k <= |s| && SlugCharsOnly(s) && NoDoubleHyphen(s)
    ensures SlugCharsOnly(s[..k]) && NoDoubleHyphen(s[..k])
  {
    assert forall i :: 0 <= i < k ==> s[..k][i] == s[i];
  }

  /** The slug of any text is well formed. */
  lemma SlugTextIsSlug(s: string)
    ensures IsSlug(SlugText(s))
  {
    SubShape(ToLower(s));
    TrimShape(Sub(ToLower(s)));
  }

  /** A product's slug is well formed, whatever its name and however the host folds it. */
  lemma SlugifyIsSlug(name: string, host: Host)
    ensures IsSlug(Slugify(name, host))
  {
    SlugTextIsSlug(host.fold(name));
  }

  /** Sub leaves alone a text that is already hyphen-collapsed. */
  lemma {:induction false} SubFixed(s: string)
    requires SlugCharsOnly(s) && NoDoubleHyphen(s)
    ensures Sub(s) == s
    decreases |s|
  {
    if s != [] {
      SuffixKeepsShape(s, 1);
      SubFixed(s[1..]);
      if !IsSlugChar(s[0]) {
        assert DropRun(s[1..]) == s[1..] by {
          if |s| > 1 {
            assert s[1..][0] == s[1];
          }
        }
      }
      assert s == [s[0]] + s[1..];
    }
  }

  /** No character of `t` is in `[a-z0-9]`. */
  predicate NoSlugChars(t: string) {
    forall i :: 0 <= i < |t| ==> !IsSlugChar(t[i])
  }

  /** A run outside `[a-z0-9]` in front of a letter or digit is dropped whole. */
  lemma {:induction false} DropWholeRun(run: string, b: string)
    requires NoSlugChars(run)
    requires b == [] || IsSlugChar(b[0])
    ensures DropRun(run + b) == b
    decreases |run|
  {
    if run == [] {
      assert run + b == b;
    } else {
      assert (run + b)[1..] == run[1..] + b;
      assert NoSlugChars(run[1..]) by {
        assert forall i :: 0 <= i < |run| - 1 ==> run[1..][i] == run[i + 1];
      }
      DropWholeRun(run[1..], b);
    }
  }

  /** Dropping a run stops inside `x` when `x` ends with a letter or digit. */
  lemma {:induction false} DropRunStopsInside(x: string, y: string)
    requires x != [] && IsSlugChar(x[|x| - 1])
    ensures DropRun(x + y) == DropRun(x) + y
    ensures DropRun(x) != [] && DropRun(x)[|DropRun(x)| - 1] == x[|x| - 1]
    decreases |x|
  {
    if !IsSlugChar(x[0]) {
      assert (x + y)[1..] == x[1..] + y;
      DropRunStopsInside(x[1..], y);
    } else {
      assert (x + y)[0] == x[0];
    }
  }

  /**
   * `re.sub` turns a maximal run outside `[a-z0-9]` into exactly one hyphen:
   * between a text that ends with a letter or digit and one that starts with
   * one, any such run, however long, becomes a single `-`.
   */
  lemma {:induction false} SubRunIsOneHyphen(a: string, run: string, b: string)
    requires a == [] || IsSlugChar(a[|a| - 1])
    requires run != [] && NoSlugChars(run)
    requires b == [] || IsSlugChar(b[0])
    ensures Sub(a + run + b) == Sub(a) + "-" + Sub(b)
    decreases |a|, 1
  {
    if a == [] {
      assert a + run + b == run + b;
      SubOfRun(run, b);
    } else if IsSlugChar(a[0]) {
      SubSlugHead(a, run, b);
    } else {
      SubRunHead(a, run, b);
    }
  }

  /** A leading run outside `[a-z0-9]` becomes one hyphen. */
  lemma SubOfRun(run: string, b: string)
    requires run != [] && NoSlugChars(run)
    requires b == [] || IsSlugChar(b[0])
    ensures Sub(run + b) == "-" + Sub(b)
  {
    var s := run + b;
    assert s[0] == run[0] && s[1..] == run[1..] + b;
    assert NoSlugChars(run[1..]) by {
      assert forall i :: 0 <= i < |run| - 1 ==> run[1..][i] == run[i + 1];
    }
    DropWholeRun(run[1..], b);
  }

  lemma {:induction false} SubSlugHead(a: string, run: string, b: string)
    requires a != [] && IsSlugChar(a[0]) && IsSlugChar(a[|a| - 1])
    requires run != [] && NoSlugChars(run)
    requires b == [] || IsSlugChar(b[0])
    ensures Sub(a + run + b) == Sub(a) + "-" + Sub(b)
    decreases |a|, 0
  {
    var rest := a[1..];
    SlugHeadStep(a, run, b);
    SubRunIsOneHyphen(rest, run, b);
    HeadAround([a[0]], Sub(rest), Sub(b));
  }

  /** A text that opens with a letter or digit: Sub keeps it and goes on with the rest. */
  lemma SlugHeadStep(a: string, run: string, b: string)
    requires a != [] && IsSlugChar(a[0]) && IsSlugChar(a[|a| - 1])
    ensures Sub(a + run + b) == [a[0]] + Sub(a[1..] + run + b)
    ensures Sub(a) == [a[0]] + Sub(a[1..])
    ensures a[1..] == [] || IsSlugChar(a[1..][|a[1..]| - 1])
  {
    var s := a + run + b;
    assert s[0] == a[0] && s[1..] == a[1..] + run + b;
  }

  lemma HeadAround(h: string, x: string, y: string)
    ensures h + (x + "-" + y) == (h + x) + "-" + y
  {
  }

  lemma {:induction false} SubRunHead(a: string, run: string, b: string)
    requires a != [] && !IsSlugChar(a[0]) && IsSlugChar(a[|a| - 1])
    requires run != [] && NoSlugChars(run)
    requires b == [] || IsSlugChar(b[0])
    ensures Sub(a + run + b) == Sub(a) + "-" + Sub(b)
    decreases |a|, 0
  {
    var d := DropRun(a[1..]);
    RunHeadStep(a, run, b);
    SubRunIsOneHyphen(d, run, b);
    HyphenAround(Sub(d), Sub(b));
  }

  /** A text that opens with a run and ends with a letter or digit: Sub drops the run once. */
  lemma RunHeadStep(a: string, run: string, b: string)
    requires a != [] && !IsSlugChar(a[0]) && IsSlugChar(a[|a| - 1])
    ensures Sub(a + run + b) == "-" + Sub(DropRun(a[1..]) + run + b)
    ensures Sub(a) == "-" + Sub(DropRun(a[1..]))
    ensures |DropRun(a[1..])| < |a| && DropRun(a[1..]) != []
    ensures IsSlugChar(DropRun(a[1..])[|DropRun(a[1..])| - 1])
  {
    var s := a + run + b;
    TailOfJoin(a, run, b);
    DropRunStopsInside(a[1..], run + b);
    var d := DropRun(a[1..]);
    assert DropRun(s[1..]) == d + run + b by {
      JoinAssoc(d, run, b);
    }
    assert !IsSlugChar(s[0]);
  }

  lemma TailOfJoin(a: string, run: string, b: string)
    requires a != []
    ensures (a + run + b)[0] == a[0] && (a + run + b)[1..] == a[1..] + (run + b)
  {
  }

  lemma JoinAssoc(d: string, run: string, b: string)
    ensures d + (run + b) == d + run + b
  {
  }

  lemma HyphenAround(x: string, y: string)
    ensures "-" + (x + "-" + y) == ("-" + x) + "-" + y
  {
  }


  /** The words of a name become the words of its slug, and the run " & " one hyphen. */
  lemma SlugTextExample()
    ensures SlugText("Gin & Tonic") == "gin-tonic"
  {
    LowerGinName();
    SubGinName();
    var r := "gin-tonic";
    assert r[0] != '-' && r[|r| - 1] != '-';
  }

  lemma LowerGinName()
    ensures ToLower("Gin & Tonic") == "gin & tonic"
  {
    LowerAsciiLetters();
  }

  lemma SubGinName()
    ensures Sub("gin & tonic") == "gin-tonic"
  {
    var a, run, b := "gin", " & ", "tonic";
    GinWords();
    assert a + run + b == "gin & tonic";
    SubRunIsOneHyphen(a, run, b);
    assert a + "-" + b == "gin-tonic";
  }

  lemma GinWords()
    ensures Sub("gin") == "gin" && Sub("tonic") == "tonic" && NoSlugChars(" & ")
  {
    SubFixed("gin");
    SubFixed("tonic");
  }

  /** The slug step fixes exactly the well-formed slugs. */
  lemma SlugTextFixpoint(s: string)
    ensures SlugText(s) == s <==> IsSlug(s)
  {
    SlugTextIsSlug(s);
    if IsSlug(s) {
      SlugTextOfSlug(s);
    }
  }

  lemma SlugTextOfSlug(s: string)
    requires IsSlug(s)
    ensures SlugText(s) == s
  {
    assert forall i :: 0 <= i < |s| ==> !IsUpper(s[i]);
    LowerOfLower(s);
    SubFixed(s);
    assert TrimLeftHyphens(s) == s;
    assert TrimRightHyphens(s) == s;
  }

  /** Applying the slug step twice is applying it once. */
  lemma SlugTextIdempotent(s: string)
    ensures SlugText(SlugText(s)) == SlugText(s)
  {
    SlugTextIsSlug(s);
    SlugTextFixpoint(SlugText(s));
  }

  /**
   * Feeding a slug back in as a product name gives the same slug: the name is
   * stripped (a slug has no white space), folded (a slug is ASCII) and slugified.
   */
  lemma SlugifyIdempotent(s: string, host: Host)
    requires host.Valid() && IsSlug(s)
    ensures Slugify(PyStrip(s), host) == s
  {
    if s != [] {
      SlugCharNotSpace(s[0]);
      SlugCharNotSpace(s[|s| - 1]);
    }
    assert PyStrip(s) == s;
    assert IsAscii(s);
    SlugTextFixpoint(s);
  }

  lemma SlugCharNotSpace(c: char)
    requires IsSlugChar(c) || c == '-'
    ensures !IsPySpace(c)
  {
  }

  /** The letters and digits of the lower-cased text survive into the slug, in order. */
  lemma SlugKeepsSlugChars(s: string)
    ensures Seqs.Filter(SlugText(s), IsSlugChar) == Seqs.Filter(ToLower(s), IsSlugChar)
  {
    var t := Sub(ToLower(s));
    SubKeepsSlugChars(ToLower(s));
    TrimLeftKeepsSlugChars(t);
    TrimRightKeepsSlugChars(TrimLeftHyphens(t));
  }

  lemma {:induction false} DropRunKeepsSlugChars(s: string)
    ensures Seqs.Filter(DropRun(s), IsSlugChar) == Seqs.Filter(s, IsSlugChar)
  {
    if s != [] && !IsSlugChar(s[0]) {
      DropRunKeepsSlugChars(s[1..]);
    }
  }

  lemma {:induction false} SubKeepsSlugChars(s: string)
    ensures Seqs.Filter(Sub(s), IsSlugChar) == Seqs.Filter(s, IsSlugChar)
    decreases |s|
  {
    if s != [] {
      if IsSlugChar(s[0]) {
        SubKeepsSlugChars(s[1..]);
        assert ([s[0]] + Sub(s[1..]))[1..] == Sub(s[1..]);
      } else {
        SubKeepsSlugChars(DropRun(s[1..]));
        DropRunKeepsSlugChars(s[1..]);
        assert ("-" + Sub(DropRun(s[1..])))[1..] == Sub(DropRun(s[1..]));
      }
    }
  }

  lemma {:induction false} TrimLeftKeepsSlugChars(s: string)
    ensures Seqs.Filter(TrimLeftHyphens(s), IsSlugChar) == Seqs.Filter(s, IsSlugChar)
  {
    if s != [] && s[0] == '-' {
      TrimLeftKeepsSlugChars(s[1..]);
    }
  }

  lemma {:induction false} TrimRightKeepsSlugChars(s: string)
    ensures Seqs.Filter(TrimRightHyphens(s), IsSlugChar) == Seqs.Filter(s, IsSlugChar)
    decreases |s|
  {
    if s != [] && s[|s| - 1] == '-' {
      var init := s[..|s| - 1];
      TrimRightKeepsSlugChars(init);
      assert s == init + ['-'];
      Seqs.FilterConcat(init, ['-'], IsSlugChar);
    }
  }

  // ---------------------------------------------------------------------
  // build_product_url
  // ---------------------------------------------------------------------

  const URL_PREFIX := "https://www.systembolaget.se/produkt/"

  /** The outcome of `build_product_url`: a URL, `None`, or a raised `TypeError`. */
  datatype UrlResult = Url(url: string) | NoUrl | TypeError

  /** `(v or "")` as the left or right operand of `+ " " +`; `None` when the addition raises. */
  function NamePart(v: Json): (r: Option<string>)
    ensures r.None? <==> Truthy(v) && !v.JStr?
    ensures r.Some? && v.JStr? ==> r.value == v.s
    ensures !Truthy(v) ==> r == Some("")
  {
    if !Truthy(v) then Some("") else if v.JStr? then Some(v.s) else None
  }

  /** The four fields the builder reads. */
  datatype Fields = Fields(cat: Json, bold: Json, thin: Json, number: Json)

  /** The `product.get(...)` calls, with their defaults. */
  function FieldsOf(p: Product): Fields {
    Fields(Get(p, "categoryLevel1", JStr("")), Get(p, "productNameBold", JNull),
           Get(p, "productNameThin", JNull), Get(p, "productNumber", JNull))
  }

  /** Both name fields can be concatenated. */
  predicate NameAddable(f: Fields) {
    NamePart(f.bold).Some? && NamePart(f.thin).Some?
  }

  /** `(bold or "") + " " + (thin or "")`, stripped. */
  function NameText(f: Fields): string
    requires NameAddable(f)
  {
    PyStrip(NamePart(f.bold).value + " " + NamePart(f.thin).value)
  }

  /** The category path segment: folded and lower-cased, not slugified. */
  function CategoryPath(cat: string, host: Host): string {
    ToLower(host.fold(cat))
  }

  /** The builder's steps in Python's evaluation order. */
  function Build(f: Fields, host: Host): UrlResult {
    if !Truthy(f.cat) then NoUrl
    else if !f.cat.JStr? then TypeError
    else if !NameAddable(f) then TypeError
    else
      var slug := Slugify(NameText(f), host);
      if !Truthy(f.number) then NoUrl
      else Url(URL_PREFIX + CategoryPath(f.cat.s, host) + "/" + slug + "-" + PyStr(f.number, host) + "/")
  }

  /** `build_product_url(product)`. */
  function BuildProductUrl(p: Product, host: Host): UrlResult {
    Build(FieldsOf(p), host)
  }

  /** A missing or empty category gives no URL, whatever else the product holds. */
  lemma NoCategoryNoUrl(p: Product, host: Host)
    requires !Truthy(FieldsOf(p).cat)
    ensures BuildProductUrl(p, host) == NoUrl
  {
  }

  /**
   * The three outcomes. A URL is built exactly when the category is a
   * non-empty string, the name fields can be concatenated and the number is
   * truthy; it is then the prefix, the category path, a well-formed slug and
   * the number's text. The category is checked first, the number last.
   */
  lemma UrlOutcome(p: Product, host: Host)
    ensures var r, f := BuildProductUrl(p, host), FieldsOf(p);
            && (r.NoUrl? <==> !Truthy(f.cat) || (f.cat.JStr? && NameAddable(f) && !Truthy(f.number)))
            && (r.TypeError? <==> Truthy(f.cat) && (!f.cat.JStr? || !NameAddable(f)))
            && (r.Url? ==>
                  && f.cat.JStr? && NameAddable(f)
                  && IsSlug(Slugify(NameText(f), host))
                  && r.url == URL_PREFIX + CategoryPath(f.cat.s, host) + "/" + Slugify(NameText(f), host) + "-"
                              + PyStr(f.number, host) + "/")
  {
    var f := FieldsOf(p);
    if Build(f, host).Url? {
      SlugifyIsSlug(NameText(f), host);
    }
  }

  /** With an ASCII fold and an ASCII number, the URL is ASCII. */
  lemma UrlIsAscii(p: Product, host: Host)
    requires host.Valid()
    requires BuildProductUrl(p, host).Url? && IsAscii(PyStr(FieldsOf(p).number, host))
    ensures IsAscii(BuildProductUrl(p, host).url)
  {
    var f := FieldsOf(p);
    FoldIsAscii(host, f.cat.s);
    SlugifyIsSlug(NameText(f), host);
    SlugIsAscii(Slugify(NameText(f), host));
    UrlTextIsAscii(CategoryPath(f.cat.s, host), Slugify(NameText(f), host), PyStr(f.number, host));
  }

  lemma FoldIsAscii(host: Host, s: string)
    requires host.Valid()
    ensures IsAscii(host.fold(s))
  {
  }

  lemma SlugIsAscii(s: string)
    requires IsSlug(s)
    ensures IsAscii(s)
  {
  }

  lemma UrlTextIsAscii(cat: string, slug: string, n: string)
    requires IsAscii(cat) && IsAscii(slug) && IsAscii(n)
    ensures IsAscii(URL_PREFIX + cat + "/" + slug + "-" + n + "/")
  {
    assert IsAscii(URL_PREFIX);
    AsciiAppend(URL_PREFIX, cat);
    AsciiAppend(URL_PREFIX + cat, "/");
    AsciiAppend(URL_PREFIX + cat + "/", slug);
    AsciiAppend(URL_PREFIX + cat + "/" + slug, "-");
    AsciiAppend(URL_PREFIX + cat + "/" + slug + "-", n);
    AsciiAppend(URL_PREFIX + cat + "/" + slug + "-" + n, "/");
  }

  // ---------------------------------------------------------------------
  // The URL-attaching loop
  // ---------------------------------------------------------------------

  /** `if url: product["productUrl"] = url`. */
  function Attach(p: Product, r: UrlResult): Product {
    if r.Url? then p["productUrl" := JStr(r.url)] else p
  }

  /** The product after the loop body has run on it without raising. */
  function WithUrl(p: Product, host: Host): Product {
    Attach(p, BuildProductUrl(p, host))
  }

  /**
   * A product gains `productUrl` (holding the URL) exactly when a URL is built;
   * otherwise it is unchanged, and no other key is ever touched.
   */
  lemma WithUrlEffect(p: Product, host: Host)
    ensures var q, r := WithUrl(p, host), BuildProductUrl(p, host);
            && (r.Url? ==> "productUrl" in q && q["productUrl"] == JStr(r.url))
            && (!r.Url? ==> q == p)
            && q.Keys == p.Keys + (if r.Url? then {"productUrl"} else {})
            && forall k :: k in p && k != "productUrl" ==> q[k] == p[k]
  {
    AttachEffect(p, BuildProductUrl(p, host));
  }

  lemma AttachEffect(p: Product, r: UrlResult)
    ensures var q := Attach(p, r);
            && (r.Url? ==> "productUrl" in q && q["productUrl"] == JStr(r.url))
            && (!r.Url? ==> q == p)
            && q.Keys == p.Keys + (if r.Url? then {"productUrl"} else {})
            && forall k :: k in p && k != "productUrl" ==> q[k] == p[k]
  {
  }

  /** The builder does not read `productUrl`, so attaching twice is attaching once. */
  lemma WithUrlIdempotent(p: Product, host: Host)
    ensures WithUrl(WithUrl(p, host), host) == WithUrl(p, host)
  {
    var r := BuildProductUrl(p, host);
    AttachKeepsFields(p, r);
    calc {
      WithUrl(Attach(p, r), host);
      Attach(Attach(p, r), Build(FieldsOf(Attach(p, r)), host));
      Attach(Attach(p, r), r);
      { AttachTwice(p, r); }
      Attach(p, r);
    }
  }

  lemma AttachTwice(p: Product, r: UrlResult)
    ensures Attach(Attach(p, r), r) == Attach(p, r)
  {
  }

  /** Attaching a URL leaves the four fields the builder reads as they were. */
  lemma AttachKeepsFields(p: Product, r: UrlResult)
    ensures FieldsOf(Attach(p, r)) == FieldsOf(p)
  {
    if r.Url? {
      var q := Attach(p, r);
      assert |"productUrl"| == 10;
      assert Get(q, "categoryLevel1", JStr("")) == Get(p, "categoryLevel1", JStr(""));
      assert Get(q, "productNameBold", JNull) == Get(p, "productNameBold", JNull);
      assert Get(q, "productNameThin", JNull) == Get(p, "productNameThin", JNull);
      assert Get(q, "productNumber", JNull) == Get(p, "productNumber", JNull);
    }
  }

  /** The index of the first product whose URL building raises, or the length when none does. */
  function FirstError(ps: seq<Product>, host: Host): (k: nat)
    ensures k <= |ps|
    ensures forall i :: 0 <= i < k ==> !BuildProductUrl(ps[i], host).TypeError?
    ensures k < |ps| ==> BuildProductUrl(ps[k], host).TypeError?
  {
    if ps == [] then 0
    else if BuildProductUrl(ps[0], host).TypeError? then 0
    else 1 + FirstError(ps[1..], host)
  }

  /**
   * `for product in data: ...` over a parsed list. The products before the
   * first one that raises gain their URL; the exception leaves that one and
   * the rest untouched. Length and order are unchanged.
   */
  method AttachUrls(data: array<Product>, host: Host) returns (raised: bool)
    modifies data
    ensures raised <==> FirstError(old(data[..]), host) < data.Length
    ensures forall i :: 0 <= i < data.Length ==>
              data[i] == if i < FirstError(old(data[..]), host) then WithUrl(old(data[i]), host) else old(data[i])
  {
    ghost var orig := data[..];
    var i := 0;
    while i < data.Length
      invariant 0 <= i <= data.Length
      invariant forall k :: 0 <= k < i ==> !BuildProductUrl(orig[k], host).TypeError? && data[k] == WithUrl(orig[k], host)
      invariant forall k :: i <= k < data.Length ==> data[k] == orig[k]
    {
      var product := data[i];
      assert product == orig[i];
      var url := BuildProductUrl(product, host);
      if url.TypeError? {
        FirstErrorAt(orig, host, i);
        return true;
      }
      data[i] := Attach(product, url);
      assert data[i] == WithUrl(orig[i], host);
      i := i + 1;
    }
    FirstErrorAt(orig, host, i);
    raised := false;
  }

  /** The first error is where the scan stopped. */
  lemma {:induction false} FirstErrorAt(ps: seq<Product>, host: Host, i: nat)
    requires i <= |ps|
    requires forall k :: 0 <= k < i ==> !BuildProductUrl(ps[k], host).TypeError?
    requires i < |ps| ==> BuildProductUrl(ps[i], host).TypeError?
    ensures FirstError(ps, host) == i
  {
    if i > 0 {
      FirstErrorAt(ps[1..], host, i - 1);
    }
  }
}
