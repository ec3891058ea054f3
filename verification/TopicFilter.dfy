/** Topic names and topic filters as the broker sees them once they are split at '/'. */
module TopicFilter {

  /** One level of a filter: one of the two wildcards, or any other text. */
  datatype Level = Plus | Hash | Name(text: string)

  /** The tokenizer always yields at least one level, possibly the empty one. */
  type Filter = f: seq<Level> | |f| > 0 witness [Name("")]

  predicate IsWild(l: Level) {
    !l.Name?
  }

  /** A topic level reserved for the server, such as "$SYS". */
  predicate IsSystem(l: Level) {
    l.Name? && |l.text| > 0 && l.text[0] == '$'
  }

  /** A published topic: at least one level and no wildcard level. */
  predicate IsTopic(t: seq<Level>) {
    |t| > 0 && forall i | 0 <= i < |t| :: !IsWild(t[i])
  }

  /** The position of the first wildcard level, or the length. */
  function FirstWild(t: seq<Level>): (n: nat)
    ensures n <= |t| && (forall i | 0 <= i < n :: !IsWild(t[i])) && (n < |t| ==> IsWild(t[n]))
  {
    if t == [] || IsWild(t[0]) then 0 else 1 + FirstWild(t[1..])
  }

  /** `p` agrees with the first |p| levels of `t`, where '+' agrees with any level. */
  predicate Agrees(p: seq<Level>, t: seq<Level>) {
    |p| <= |t| && forall i | 0 <= i < |p| :: p[i] == Plus || p[i] == t[i]
  }

  predicate EndsWithHash(f: seq<Level>) {
    |f| > 0 && f[|f| - 1] == Hash
  }

  function Init<T>(s: seq<T>): seq<T> {
    if s == [] then [] else s[..|s| - 1]
  }

  function Last<T>(s: seq<T>): T
    requires s != []
  {
    s[|s| - 1]
  }

  /** Level matching without the '$' rule: '#' stands for one or more remaining levels. */
  predicate LevelMatches(f: seq<Level>, t: seq<Level>) {
    if EndsWithHash(f) then |f| <= |t| && Agrees(Init(f), t) else |f| == |t| && Agrees(f, t)
  }

  /** A first-level wildcard never matches a first level that starts with '$'. */
  predicate HiddenFrom(f: seq<Level>, t: seq<Level>) {
    |f| > 0 && |t| > 0 && IsWild(f[0]) && IsSystem(t[0])
  }

  /** The filters the subscription map delivers a publication on `t` to. */
  predicate Matches(f: seq<Level>, t: seq<Level>) {
    LevelMatches(f, t) && !HiddenFrom(f, t)
  }

  /** Level matching told from the front: '+' takes any level, and '#' at the end takes one or more. */
  predicate Accepts(f: seq<Level>, t: seq<Level>) {
    if f == [Hash] then t != []
    else if f == [] || t == [] then f == t
    else (f[0] == Plus || f[0] == t[0]) && Accepts(f[1..], t[1..])
  }

  /** The same, where '#' also takes no level. */
  predicate AcceptsParent(f: seq<Level>, t: seq<Level>) {
    if f == [Hash] then true
    else if f == [] || t == [] then f == t
    else (f[0] == Plus || f[0] == t[0]) && AcceptsParent(f[1..], t[1..])
  }

  lemma AgreesCons(p: seq<Level>, t: seq<Level>)
    requires p != [] && t != []
    ensures Agrees(p, t) <==> (p[0] == Plus || p[0] == t[0]) && Agrees(p[1..], t[1..])
  {
    if Agrees(p[1..], t[1..]) && (p[0] == Plus || p[0] == t[0]) {
      forall i | 0 <= i < |p| ensures p[i] == Plus || p[i] == t[i] {
        assert i > 0 ==> p[i] == p[1..][i - 1] && t[i] == t[1..][i - 1];
      }
    }
  }

  lemma InitTail(f: seq<Level>)
    requires |f| > 1
    ensures Init(f)[0] == f[0] && Init(f)[1..] == Init(f[1..])
  {
  }

  lemma {:induction false} AcceptsMatches(f: seq<Level>, t: seq<Level>)
    ensures Accepts(f, t) <==> LevelMatches(f, t)
    decreases |f|
  {
    if f != [Hash] && f != [] && t != [] {
      AcceptsMatches(f[1..], t[1..]);
      AgreesCons(f, t);
      if EndsWithHash(f) {
        InitTail(f);
        AgreesCons(Init(f), t);
      }
    }
  }

  lemma {:induction false} AcceptsParentMatches(f: seq<Level>, t: seq<Level>)
    ensures AcceptsParent(f, t)
       <==> if EndsWithHash(f) then |f| - 1 <= |t| && Agrees(Init(f), t) else |f| == |t| && Agrees(f, t)
    decreases |f|
  {
    if f != [Hash] && f != [] && t != [] {
      AcceptsParentMatches(f[1..], t[1..]);
      AgreesCons(f, t);
      if EndsWithHash(f) {
        InitTail(f);
        AgreesCons(Init(f), t);
      }
    }
  }

  lemma TakeSnoc<T>(s: seq<T>, i: nat)
    requires i < |s|
    ensures s[..i + 1] == s[..i] + [s[i]]
  {
  }

  // ----- the text of a filter

  const SEPARATOR := '/'

  function Text(l: Level): string {
    match l
    case Plus => "+"
    case Hash => "#"
    case Name(t) => t
  }

  function ParseLevel(s: string): Level {
    if s == "+" then Plus else if s == "#" then Hash else Name(s)
  }

  function Join(f: seq<Level>): string {
    if f == [] then "" else if |f| == 1 then Text(f[0]) else Text(f[0]) + [SEPARATOR] + Join(f[1..])
  }

  /** The text handle_to_topic_filter builds from the leaf upwards: a still empty text takes no separator. */
  function Rebuild(f: seq<Level>): string {
    if f == [] then ""
    else
      var rest := Rebuild(f[1..]);
      if rest == "" then Text(f[0]) else Text(f[0]) + [SEPARATOR] + rest
  }

  /** `s` split at the first separator that is at or after `i`. */
  function NextSeparator(s: string, i: nat): (pos: nat)
    requires i <= |s|
    ensures i <= pos <= |s|
    ensures forall j | i <= j < pos :: s[j] != SEPARATOR
    ensures pos < |s| ==> s[pos] == SEPARATOR
    decreases |s| - i
  {
    if i == |s| || s[i] == SEPARATOR then i else NextSeparator(s, i + 1)
  }

  /** The levels of a text, in the order the tokenizer hands them out. */
  function Tokenize(s: string): (f: Filter)
    decreases |s|
  {
    var pos := NextSeparator(s, 0);
    if pos == |s| then [ParseLevel(s)] else [ParseLevel(s[..pos])] + Tokenize(s[pos + 1..])
  }

  /** A level as the tokenizer produces it. */
  predicate IsToken(l: Level) {
    SEPARATOR !in Text(l) && ParseLevel(Text(l)) == l
  }

  lemma {:induction false} JoinTokenize(s: string)
    ensures Join(Tokenize(s)) == s
    ensures forall i | 0 <= i < |Tokenize(s)| :: IsToken(Tokenize(s)[i])
    decreases |s|
  {
    var pos := NextSeparator(s, 0);
    if pos == |s| {
      assert SEPARATOR !in s;
    } else {
      assert SEPARATOR !in s[..pos];
      JoinTokenize(s[pos + 1..]);
      assert Tokenize(s)[1..] == Tokenize(s[pos + 1..]);
      assert s == s[..pos] + [SEPARATOR] + s[pos + 1..];
    }
  }

  lemma {:induction false} TokenizeJoin(f: Filter)
    requires forall i | 0 <= i < |f| :: IsToken(f[i])
    ensures Tokenize(Join(f)) == f
    decreases |f|
  {
    var s := Join(f);
    var head := Text(f[0]);
    assert IsToken(f[0]);
    if |f| == 1 {
      assert NextSeparator(s, 0) == |s|;
    } else {
      TokenizeJoin(f[1..]);
      assert forall j | 0 <= j < |head| :: s[j] == head[j];
      assert s[|head|] == SEPARATOR;
      assert NextSeparator(s, 0) == |head|;
      assert s[..|head|] == head && s[|head| + 1..] == Join(f[1..]);
    }
  }

  lemma {:induction false} RebuildNonEmpty(f: Filter)
    requires Text(Last(f)) != ""
    ensures Rebuild(f) != ""
  {
    if |f| > 1 {
      assert Last(f[1..]) == Last(f);
      RebuildNonEmpty(f[1..]);
    } else {
      assert Rebuild(f[1..]) == "";
    }
  }

  lemma {:induction false} RebuildShorter(f: seq<Level>)
    requires |f| > 1 && Text(Last(f)) == ""
    ensures |Rebuild(f)| < |Join(f)|
  {
    if |f| > 2 {
      RebuildShorter(f[1..]);
    } else {
      assert f[1..] == [f[1]] && f[1..][1..] == [];
      assert Rebuild(f[1..]) == "";
    }
  }

  /** A filter is spelled out again exactly when its last level is not empty, or is its only one. */
  lemma {:induction false} RebuildExact(f: Filter)
    ensures Rebuild(f) == Join(f) <==> Text(Last(f)) != "" || |f| == 1
  {
    if |f| == 1 {
      assert f[1..] == [];
    } else if Text(Last(f)) == "" {
      RebuildShorter(f);
    } else {
      assert Last(f[1..]) == Last(f);
      RebuildExact(f[1..]);
      RebuildNonEmpty(f[1..]);
    }
  }

  // ----- '$' at the beginning of a text

  lemma SystemText(t: seq<Level>)
    ensures "$" <= Join(t) <==> t != [] && IsSystem(t[0])
  {
    if |t| > 1 {
      assert Join(t)[0] == if Text(t[0]) == "" then SEPARATOR else Text(t[0])[0];
    } else if t != [] {
      assert Join(t) == Text(t[0]);
    }
    assert "$" <= Join(t) <==> Join(t) != "" && Join(t)[0] == '$';
  }

  /** What the subscription map delivers, spelled out: the level rules, and no wildcard over a leading '$'. */
  lemma MatchesSpelled(f: seq<Level>, t: seq<Level>)
    requires f != []
    ensures Matches(f, t) <==> Accepts(f, t) && (f[0].Name? || !("$" <= Join(t)))
  {
    AcceptsMatches(f, t);
    SystemText(t);
  }

  // ----- some texts

  lemma OneLevel(a: Level)
    requires IsToken(a)
    ensures Tokenize(Text(a)) == [a]
  {
    TokenizeJoin([a]);
  }

  lemma TwoLevels(a: Level, b: Level)
    requires IsToken(a) && IsToken(b)
    ensures Tokenize(Text(a) + "/" + Text(b)) == [a, b]
  {
    assert [a, b][1..] == [b];
    TokenizeJoin([a, b]);
  }

  lemma ThreeLevels(a: Level, b: Level, c: Level)
    requires IsToken(a) && IsToken(b) && IsToken(c)
    ensures Tokenize(Text(a) + "/" + Text(b) + "/" + Text(c)) == [a, b, c]
  {
    assert [a, b, c][1..] == [b, c] && [b, c][1..] == [c];
    assert Join([b, c]) == Text(b) + "/" + Text(c);
    assert Join([a, b, c]) == Text(a) + "/" + (Text(b) + "/" + Text(c));
    assert Text(a) + "/" + (Text(b) + "/" + Text(c)) == Text(a) + "/" + Text(b) + "/" + Text(c);
    TokenizeJoin([a, b, c]);
  }

  /** Levels are separated by '/', may be empty, and are wildcards only as "+" or "#" alone. */
  lemma Texts()
    ensures Tokenize("a/+/#") == [Name("a"), Plus, Hash] && Tokenize("") == [Name("")] && Tokenize("#") == [Hash]
    ensures Tokenize("/x") == [Name(""), Name("x")] && Tokenize("$aws/x") == [Name("$aws"), Name("x")]
    ensures Tokenize("+/x") == [Plus, Name("x")] && Tokenize("a+/b") == [Name("a+"), Name("b")]
    ensures Tokenize("a/") == [Name("a"), Name("")]
  {
    hide Tokenize;
    OneLevel(Name(""));
    OneLevel(Hash);
    TwoLevels(Name(""), Name("x"));
    assert "" + "/" + "x" == "/x";
    TwoLevels(Name("$aws"), Name("x"));
    assert "$aws" + "/" + "x" == "$aws/x";
    TwoLevels(Plus, Name("x"));
    assert "+" + "/" + "x" == "+/x";
    TwoLevels(Name("a+"), Name("b"));
    assert "a+" + "/" + "b" == "a+/b";
    TwoLevels(Name("a"), Name(""));
    assert "a" + "/" + "" == "a/";
    ThreeLevels(Name("a"), Plus, Hash);
    assert "a" + "/" + "+" + "/" + "#" == "a/+/#";
  }

  /** A filter is spelled out with '/' between its levels; an empty last level is lost when read off a handle. */
  lemma Spellings()
    ensures Join([Name("a"), Plus, Hash]) == "a/+/#" && Join([Name(""), Name("x")]) == "/x"
    ensures Rebuild([Name("a"), Plus]) == "a/+" && Rebuild([Name("a"), Name("")]) == "a"
  {
    assert [Name("a"), Plus, Hash][1..] == [Plus, Hash] && [Plus, Hash][1..] == [Hash];
    assert Join([Plus, Hash]) == "+" + "/" + "#";
    assert [Name(""), Name("x")][1..] == [Name("x")];
    assert [Name("a"), Plus][1..] == [Plus] && [Plus][1..] == [];
    assert [Name("a"), Name("")][1..] == [Name("")] && [Name("")][1..] == [];
    assert Rebuild([Plus]) == "+" && Rebuild([Name("")]) == "";
  }
}
