/** The resolver record a component is compiled against, and the derivation
    of a component's name from its file specifier. */
module Resolve {
  import opened Syntax
  import opened Statements
  import opened Strings

  /** One import or export a component depends on. */
  datatype DependencyDescriptor = DependencyDescriptor(specifier: string, isDynamic: bool)

  /** The state shared by the passes that compile one component. */
  class Resolver {
    /** the specifier of the component being compiled */
    var specifier: string
    /** the DOM helper module the generated code imports */
    var runtimeModule: string
    var depGraph: seq<DependencyDescriptor>
    /** inline styles */
    var css: Option<CssTemplate>
    /** the component's statements, once the walker has folded the module */
    var ast: Option<Ast>

    constructor (specifier: string, runtimeModule: string)
      ensures this.specifier == specifier && this.runtimeModule == runtimeModule
      ensures depGraph == [] && css == None && ast == None
    {
      this.specifier := specifier;
      this.runtimeModule := runtimeModule;
      depGraph := [];
      css := None;
      ast := None;
    }

    constructor Default()
      ensures specifier == "./App.alef" && runtimeModule == "alef-dom"
      ensures depGraph == [] && css == None && ast == None
    {
      specifier := "./App.alef";
      runtimeModule := "alef-dom";
      depGraph := [];
      css := None;
      ast := None;
    }
  }

  // ---------------------------------------------------------------------
  // Component names

  const ComponentExtension := ".alef"
  const FallbackName := "App"

  /** The specifier without its trailing `.alef` extensions. */
  function Stem(s: string): string {
    TrimEndMatches(s, ComponentExtension)
  }

  /** The state of the left-to-right scan: the characters emitted so far and
      whether the next lower-case letter starts a new word. */
  datatype Scan = Scan(out: string, shouldUppercase: bool)

  /** One character of the scan: letters are kept, a lower-case letter that
      starts a word is capitalised, a digit is kept once something has been
      emitted, and anything else is dropped and starts a new word. */
  function Step(st: Scan, c: char): Scan {
    if IsAsciiLower(c) then
      if st.shouldUppercase then Scan(st.out + [ToAsciiUpper(c)], false)
      else Scan(st.out + [c], false)
    else if IsAsciiUpper(c) then Scan(st.out + [c], false)
    else if IsAsciiDigit(c) && |st.out| > 0 then Scan(st.out + [c], false)
    else Scan(st.out, true)
  }

  /** The scan over all of `t`, from the left. */
  function Scanned(t: string): Scan {
    if t == [] then Scan([], true) else Step(Scanned(t[..|t| - 1]), t[|t| - 1])
  }

  /** Facts the scan keeps: nothing emitted means a word is pending, every
      emitted character is an ASCII letter or digit, the first one is an
      upper-case letter, and something is emitted exactly when `t` holds a
      letter. */
  lemma {:induction false} ScanInvariant(t: string)
    ensures Scanned(t).out == [] ==> Scanned(t).shouldUppercase
    ensures forall i :: 0 <= i < |Scanned(t).out| ==> IsAsciiAlphanumeric(Scanned(t).out[i])
    ensures |Scanned(t).out| > 0 ==> IsAsciiUpper(Scanned(t).out[0])
    ensures Scanned(t).out != [] <==> exists i :: 0 <= i < |t| && IsAsciiLetter(t[i])
  {
    if t != [] {
      var p := t[..|t| - 1];
      ScanInvariant(p);
      assert forall i :: 0 <= i < |p| ==> p[i] == t[i];
    }
  }

  /** The component name the compiler derives from a specifier. */
  function ComponentName(s: string): (name: string)
    ensures |name| > 0 && IsAsciiUpper(name[0])
    ensures forall i :: 0 <= i < |name| ==> IsAsciiAlphanumeric(name[i])
  {
    ScanInvariant(Stem(s));
    var out := Scanned(Stem(s)).out;
    if out == [] then FallbackName else out
  }

  /** Loops over the characters of the stem with a mutable capitalisation
      flag, collecting the kept characters. */
  method ToComponentName(s: string) returns (name: string)
    ensures name == ComponentName(s)
  {
    var shouldUppercase := true;
    var chars: string := [];
    var stem := TrimEndMatches(s, ComponentExtension);
    for i := 0 to |stem|
      invariant Scanned(stem[..i]) == Scan(chars, shouldUppercase)
    {
      var c := stem[i];
      if 'a' <= c <= 'z' {
        if shouldUppercase {
          shouldUppercase := false;
          chars := chars + [ToAsciiUpper(c)];
        } else {
          chars := chars + [c];
        }
      } else if 'A' <= c <= 'Z' {
        shouldUppercase := false;
        chars := chars + [c];
      } else if '0' <= c <= '9' && |chars| > 0 {
        shouldUppercase := false;
        chars := chars + [c];
      } else {
        shouldUppercase := true;
      }
      assert stem[..i + 1][..i] == stem[..i];
    }
    assert stem[..|stem|] == stem;
    if |chars| == 0 {
      return FallbackName;
    }
    name := chars;
  }

  // ---------------------------------------------------------------------
  // A position-by-position description of the same name

  /** Some letter occurs before position `i`. */
  predicate LetterBefore(t: string, i: int) {
    exists j :: 0 <= j < i && j < |t| && IsAsciiLetter(t[j])
  }

  /** Position `i` of the stem survives: letters always do, digits only
      once a letter has come before them. */
  predicate Kept(t: string, i: int)
    requires 0 <= i < |t|
  {
    IsAsciiLetter(t[i]) || (IsAsciiDigit(t[i]) && LetterBefore(t, i))
  }

  /** How a surviving character appears: a lower-case letter at the start or
      right after a dropped character is capitalised, any other character is
      copied unchanged. */
  function Rendered(t: string, i: int): char
    requires 0 <= i < |t|
  {
    if IsAsciiLower(t[i]) && (i == 0 || !Kept(t, i - 1)) then ToAsciiUpper(t[i]) else t[i]
  }

  /** The surviving characters of `t`, in order, each as rendered. */
  function KeptRendered(t: string): string {
    if t == [] then []
    else KeptRendered(t[..|t| - 1]) + (if Kept(t, |t| - 1) then [Rendered(t, |t| - 1)] else [])
  }

  lemma PrefixKeepsPositions(t: string, p: string, i: int)
    requires |p| <= |t| && p == t[..|p|] && 0 <= i < |p|
    ensures LetterBefore(p, i) == LetterBefore(t, i)
    ensures Kept(p, i) == Kept(t, i)
  {
    assert forall j :: 0 <= j < |p| ==> p[j] == t[j];
  }

  /** The scan and the position-by-position description agree: the scan's
      output is the kept characters rendered, and its flag says the last
      character was dropped. */
  lemma {:induction false} ScanMatchesPositions(t: string)
    ensures Scanned(t).out == KeptRendered(t)
    ensures Scanned(t).shouldUppercase <==> t == [] || !Kept(t, |t| - 1)
    ensures |Scanned(t).out| > 0 <==> LetterBefore(t, |t|)
  {
    if t != [] {
      ScanMatchesPositions(t[..|t| - 1]);
      PositionsStep(t);
    }
  }

  /** `ScanMatchesPositions` for `t` from the same facts about all of `t`
      but its last character. */
  lemma PositionsStep(t: string)
    requires t != []
    requires var p := t[..|t| - 1];
      && Scanned(p).out == KeptRendered(p)
      && (Scanned(p).shouldUppercase <==> p == [] || !Kept(p, |p| - 1))
      && (|Scanned(p).out| > 0 <==> LetterBefore(p, |p|))
    ensures Scanned(t).out == KeptRendered(t)
    ensures Scanned(t).shouldUppercase <==> t == [] || !Kept(t, |t| - 1)
    ensures |Scanned(t).out| > 0 <==> LetterBefore(t, |t|)
  {
    var n := |t|;
    var p := t[..n - 1];
    if n >= 2 {
      PrefixKeepsPositions(t, p, n - 2);
    }
    assert LetterBefore(p, n - 1) == LetterBefore(t, n - 1) by {
      assert forall j :: 0 <= j < n - 1 ==> p[j] == t[j];
    }
    assert LetterBefore(t, n) <==> LetterBefore(t, n - 1) || IsAsciiLetter(t[n - 1]);
  }

  /** The component name of a specifier whose stem has a letter is the stem's
      kept characters, rendered; otherwise it is the fallback. */
  lemma ComponentNameByPositions(s: string)
    ensures LetterBefore(Stem(s), |Stem(s)|) ==> ComponentName(s) == KeptRendered(Stem(s))
    ensures !LetterBefore(Stem(s), |Stem(s)|) ==> ComponentName(s) == FallbackName
  {
    ScanMatchesPositions(Stem(s));
  }

  // ---------------------------------------------------------------------
  // The unit-test table

  /** The name of a specifier `w.alef` whose stem scans to a non-empty `name`. */
  lemma NameOfStem(s: string, w: string, name: string)
    requires s == w + ComponentExtension && !EndsWith(w, ComponentExtension)
    requires Scanned(w).out == name
    ensures ComponentName(s) == (if name == [] then FallbackName else name)
  {
    assert s[..|s| - 5] == w;
    assert s[|s| - 5..] == ComponentExtension;
    assert Stem(s) == TrimEndMatches(w, ComponentExtension) == w;
  }

  /** One step of a concrete scan. */
  lemma ScanSnoc(t: string, c: char, u: string, before: Scan, after: Scan)
    requires u == t + [c] && Scanned(t) == before && Step(before, c) == after
    ensures Scanned(u) == after
  {
    assert u[..|t|] == t;
  }

  lemma NameApp()
    ensures ComponentName("app.alef") == "App"
  {
    ScanSnoc([], 'a', "a", Scan([], true), Scan("A", false));
    ScanSnoc("a", 'p', "ap", Scan("A", false), Scan("Ap", false));
    ScanSnoc("ap", 'p', "app", Scan("Ap", false), Scan("App", false));
    NameOfStem("app.alef", "app", "App");
  }

  lemma NameUpperCaseKept()
    ensures ComponentName("APP.alef") == "APP"
  {
    ScanSnoc([], 'A', "A", Scan([], true), Scan("A", false));
    ScanSnoc("A", 'P', "AP", Scan("A", false), Scan("AP", false));
    ScanSnoc("AP", 'P', "APP", Scan("AP", false), Scan("APP", false));
    NameOfStem("APP.alef", "APP", "APP");
  }

  /** A dropped separator starts a new, capitalised word. */
  lemma ScanHello()
    ensures Scanned("hello") == Scan("Hello", false)
  {
    ScanSnoc([], 'h', "h", Scan([], true), Scan("H", false));
    ScanSnoc("h", 'e', "he", Scan("H", false), Scan("He", false));
    ScanSnoc("he", 'l', "hel", Scan("He", false), Scan("Hel", false));
    ScanSnoc("hel", 'l', "hell", Scan("Hel", false), Scan("Hell", false));
    ScanSnoc("hell", 'o', "hello", Scan("Hell", false), Scan("Hello", false));
  }

  lemma ScanCapitalHello()
    ensures Scanned("Hello") == Scan("Hello", false)
  {
    ScanSnoc([], 'H', "H", Scan([], true), Scan("H", false));
    ScanSnoc("H", 'e', "He", Scan("H", false), Scan("He", false));
    ScanSnoc("He", 'l', "Hel", Scan("He", false), Scan("Hel", false));
    ScanSnoc("Hel", 'l', "Hell", Scan("Hel", false), Scan("Hell", false));
    ScanSnoc("Hell", 'o', "Hello", Scan("Hell", false), Scan("Hello", false));
  }

  /** After a separator, `world` is scanned as `World`. */
  lemma ScanWorldAfter(t: string)
    requires Scanned(t) == Scan("Hello", true)
    ensures Scanned(t + "world") == Scan("HelloWorld", false)
  {
    ScanSnoc(t, 'w', t + "w", Scan("Hello", true), Scan("HelloW", false));
    ScanSnoc(t + "w", 'o', t + "wo", Scan("HelloW", false), Scan("HelloWo", false));
    ScanSnoc(t + "wo", 'r', t + "wor", Scan("HelloWo", false), Scan("HelloWor", false));
    ScanSnoc(t + "wor", 'l', t + "worl", Scan("HelloWor", false), Scan("HelloWorl", false));
    ScanSnoc(t + "worl", 'd', t + "world", Scan("HelloWorl", false), Scan("HelloWorld", false));
  }

  lemma NameHyphen()
    ensures ComponentName("hello-world.alef") == "HelloWorld"
  {
    ScanHello();
    ScanSnoc("hello", '-', "hello-", Scan("Hello", false), Scan("Hello", true));
    ScanWorldAfter("hello-");
    assert "hello-" + "world" == "hello-world";
    NameOfStem("hello-world.alef", "hello-world", "HelloWorld");
  }

  lemma NameSpace()
    ensures ComponentName("hello world.alef") == "HelloWorld"
  {
    ScanHello();
    ScanSnoc("hello", ' ', "hello ", Scan("Hello", false), Scan("Hello", true));
    ScanWorldAfter("hello ");
    assert "hello " + "world" == "hello world";
    NameOfStem("hello world.alef", "hello world", "HelloWorld");
  }

  /** Digits after a letter are kept. */
  lemma NameTrailingDigits()
    ensures ComponentName("hi798.alef") == "Hi798"
  {
    ScanSnoc([], 'h', "h", Scan([], true), Scan("H", false));
    ScanSnoc("h", 'i', "hi", Scan("H", false), Scan("Hi", false));
    ScanSnoc("hi", '7', "hi7", Scan("Hi", false), Scan("Hi7", false));
    ScanSnoc("hi7", '9', "hi79", Scan("Hi7", false), Scan("Hi79", false));
    ScanSnoc("hi79", '8', "hi798", Scan("Hi79", false), Scan("Hi798", false));
    NameOfStem("hi798.alef", "hi798", "Hi798");
  }

  /** Digits before any letter are dropped. */
  lemma NameLeadingDigits()
    ensures ComponentName("798hi.alef") == "Hi"
  {
    ScanSnoc([], '7', "7", Scan([], true), Scan([], true));
    ScanSnoc("7", '9', "79", Scan([], true), Scan([], true));
    ScanSnoc("79", '8', "798", Scan([], true), Scan([], true));
    ScanSnoc("798", 'h', "798h", Scan([], true), Scan("H", false));
    ScanSnoc("798h", 'i', "798hi", Scan("H", false), Scan("Hi", false));
    NameOfStem("798hi.alef", "798hi", "Hi");
  }

  /** Nothing survives, so the fallback is used. */
  lemma NameDigitsOnly()
    ensures ComponentName("798.alef") == "App"
  {
    ScanSnoc([], '7', "7", Scan([], true), Scan([], true));
    ScanSnoc("7", '9', "79", Scan([], true), Scan([], true));
    ScanSnoc("79", '8', "798", Scan([], true), Scan([], true));
    NameOfStem("798.alef", "798", []);
  }

  /** Non-ASCII letters and punctuation are dropped. */
  lemma NameNonAscii()
    ensures ComponentName("Hello \U{4E16}\U{754C}!.alef") == "Hello"
  {
    ScanCapitalHello();
    ScanSnoc("Hello", ' ', "Hello ", Scan("Hello", false), Scan("Hello", true));
    ScanSnoc("Hello ", '\U{4E16}', "Hello \U{4E16}", Scan("Hello", true), Scan("Hello", true));
    ScanSnoc("Hello \U{4E16}", '\U{754C}', "Hello \U{4E16}\U{754C}", Scan("Hello", true), Scan("Hello", true));
    ScanSnoc("Hello \U{4E16}\U{754C}", '!', "Hello \U{4E16}\U{754C}!", Scan("Hello", true), Scan("Hello", true));
    NameOfStem("Hello \U{4E16}\U{754C}!.alef", "Hello \U{4E16}\U{754C}!", "Hello");
  }
}
