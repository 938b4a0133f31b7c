/**
 * The toolchain probe: `swiftVersion` and `swiftTriple` run `swift --version`
 * and pick the version number and the target triple out of its banner. The
 * subprocess is not modelled; what reaches the parsers is its optional output.
 */
module Toolchain {
  import opened Options
  import opened Text

  /** The phrase that precedes the version number in the banner. */
  const VersionPhrase: string := "Apple Swift version "
  /** The phrase that precedes the target triple in the banner. */
  const TargetPhrase: string := "Target: "

  /**
   * What `try? shell("swift", arguments: ["--version"])` yields: nil when the
   * process cannot be launched or exits with a non-zero status, otherwise its
   * standard output, read as UTF-8 (`stdout` is None when it is not valid
   * UTF-8, and the probe then sees the empty string).
   */
  function ShellOutput(launched: bool, status: int, stdout: Option<string>): (r: Option<string>)
    ensures r.Some? <==> launched && status == 0
    ensures r.Some? ==> r.value == if stdout.Some? then stdout.value else []
  {
    if !launched then None
    else if status != 0 then None
    else Some(stdout.GetOr([]))
  }

  /**
   * `swiftVersion`: the last non-empty piece of the output split on
   * `VersionPhrase`, then the first non-empty piece of that split on a space,
   * trimmed of whitespace and newlines.
   */
  function SwiftVersion(output: Option<string>): (r: Option<string>)
    ensures r.Some? ==> output.Some? && Trimmed(r.value)
    ensures output.Some? && Split(output.value, VersionPhrase) == [] ==> r.None?
  {
    match output
    case None => None
    case Some(out) =>
      match Last(Split(out, VersionPhrase))
      case None => None
      case Some(full) =>
        match First(Split(full, " "))
        case None => None
        case Some(token) => Some(Trim(token))
  }

  /**
   * `swiftTriple`: the last non-empty piece of the output split on
   * `TargetPhrase`, trimmed of whitespace and newlines.
   */
  function SwiftTriple(output: Option<string>): (r: Option<string>)
    ensures r.None? <==> output.None? || Split(output.value, TargetPhrase) == []
    ensures r.Some? ==> Trimmed(r.value)
  {
    match output
    case None => None
    case Some(out) =>
      match Last(Split(out, TargetPhrase))
      case None => None
      case Some(target) => Some(Trim(target))
  }

  /** Neither phrase can overlap itself: each starts with a letter found nowhere else in it. */
  lemma PhrasesOverlapFree()
    ensures SelfOverlapFree(VersionPhrase) && SelfOverlapFree(TargetPhrase)
  {
    VersionFirstCharUnique();
    FirstCharUnique(VersionPhrase);
    TargetFirstCharUnique();
    FirstCharUnique(TargetPhrase);
  }

  /** The "A" that opens the version phrase does not recur in it. */
  lemma VersionFirstCharUnique()
    ensures VersionPhrase[0] !in VersionPhrase[1..]
  {
    assert 'A' !in "pple " && 'A' !in "Swift " && 'A' !in "version ";
    assert VersionPhrase[1..] == "pple " + "Swift " + "version ";
  }

  /** The "T" that opens the target phrase does not recur in it. */
  lemma TargetFirstCharUnique()
    ensures TargetPhrase[0] !in TargetPhrase[1..]
  {
    assert TargetPhrase[1..] == "arget: ";
  }

  /**
   * A version, when there is one, holds no space, has no whitespace at
   * either end, and is a substring of the banner.
   */
  lemma VersionShape(output: Option<string>)
    ensures SwiftVersion(output).Some? ==>
      && output.Some?
      && ' ' !in SwiftVersion(output).value
      && Trimmed(SwiftVersion(output).value)
      && Contains(output.value, SwiftVersion(output).value)
  {
    match output
    case None =>
    case Some(out) =>
      match Last(Split(out, VersionPhrase))
      case None =>
      case Some(full) =>
        LastPieceIsPart(out, VersionPhrase, full);
        match First(Split(full, " "))
        case None =>
        case Some(token) =>
          WordShape(full, token);
          ContainsTrans(out, full, Trim(token));
  }

  /** The first space-separated word of `t`, trimmed, holds no space, is trimmed and is part of `t`. */
  lemma WordShape(t: string, token: string)
    requires First(Split(t, " ")) == Some(token)
    ensures ' ' !in Trim(token) && Trimmed(Trim(token)) && Contains(t, Trim(token))
  {
    var tokens := Split(t, " ");
    assert tokens[0] == token;
    assert !Contains(token, " ") && Contains(t, token);
    if ' ' in token {
      CharInContains(token, ' ');
    }
    TrimKeepsOut(token, ' ');
    TrimIsSubstring(token);
    ContainsTrans(t, token, Trim(token));
  }

  /**
   * When the banner does not end with the version phrase, the version is
   * taken from the text after the LAST "Apple Swift version ": its first
   * space-delimited word, trimmed; nil when that text is only spaces.
   */
  lemma VersionAfterLastPhrase(out: string)
    requires AfterLast(out, VersionPhrase) != []
    ensures SwiftVersion(Some(out)) ==
      match FirstRun(AfterLast(out, VersionPhrase), ' ')
      case None => None
      case Some(word) => Some(Trim(word))
  {
    var tail := AfterLast(out, VersionPhrase);
    PhrasesOverlapFree();
    LastPieceAfterLast(out, VersionPhrase);
    var p := Pieces(out, VersionPhrase);
    LastOfNonEmpty(p);
    assert Last(Split(out, VersionPhrase)) == Some(tail);
    FirstOfSplitOnChar(tail, ' ');
  }

  /**
   * A banner that ends with the version phrase gives the version of the
   * banner without it: the empty piece after it is left out of the split.
   */
  lemma VersionTrailingPhrase(out: string)
    requires |VersionPhrase| <= |out| && OccursAt(out, VersionPhrase, |out| - |VersionPhrase|)
    ensures SwiftVersion(Some(out)) == SwiftVersion(Some(out[..|out| - |VersionPhrase|]))
  {
    PhrasesOverlapFree();
    SplitTrailingSeparator(out, VersionPhrase);
  }

  /** A triple, when there is one, has no whitespace at either end and is a substring of the banner. */
  lemma TripleShape(output: Option<string>)
    ensures SwiftTriple(output).Some? ==>
      output.Some? && Trimmed(SwiftTriple(output).value) && Contains(output.value, SwiftTriple(output).value)
  {
    match output
    case None =>
    case Some(out) =>
      match Last(Split(out, TargetPhrase))
      case None =>
      case Some(target) =>
        LastPieceIsPart(out, TargetPhrase, target);
        TrimIsSubstring(target);
        ContainsTrans(out, target, Trim(target));
  }

  /**
   * The triple is nil only when the probe has no output or when the output
   * consists of nothing but copies of "Target: " (the empty output included).
   */
  lemma TripleNilOnlyWhenNoPiece(output: Option<string>)
    ensures SwiftTriple(output).None? <==>
      output.None? || exists n: nat :: output.value == Repeat(TargetPhrase, n)
  {
    if output.Some? {
      SplitEmptyIff(output.value, TargetPhrase);
    }
  }

  /**
   * When the banner does not end with the target phrase, the triple is the
   * text after the LAST "Target: ", trimmed.
   */
  lemma TripleAfterLastPhrase(out: string)
    requires AfterLast(out, TargetPhrase) != []
    ensures SwiftTriple(Some(out)) == Some(Trim(AfterLast(out, TargetPhrase)))
  {
    PhrasesOverlapFree();
    LastPieceAfterLast(out, TargetPhrase);
    LastOfNonEmpty(Pieces(out, TargetPhrase));
  }

  /**
   * A banner that ends with the target phrase gives the triple of the banner
   * without it: "x Target: " gives "x", not the empty string.
   */
  lemma TripleTrailingPhrase(out: string)
    requires |TargetPhrase| <= |out| && OccursAt(out, TargetPhrase, |out| - |TargetPhrase|)
    ensures SwiftTriple(Some(out)) == SwiftTriple(Some(out[..|out| - |TargetPhrase|]))
  {
    PhrasesOverlapFree();
    SplitTrailingSeparator(out, TargetPhrase);
  }

  /** Without "Target: " anywhere, the whole (non-empty) output is used, trimmed. */
  lemma TripleWithoutPhrase(out: string)
    requires out != [] && !Contains(out, TargetPhrase)
    ensures SwiftTriple(Some(out)) == Some(Trim(out))
  {
    SplitWithoutSeparator(out, TargetPhrase);
  }

  /** A toolchain that cannot be launched, or that fails, gives neither a version nor a triple. */
  lemma FailedToolchain(launched: bool, status: int, stdout: Option<string>)
    requires !launched || status != 0
    ensures SwiftVersion(ShellOutput(launched, status, stdout)) == None
    ensures SwiftTriple(ShellOutput(launched, status, stdout)) == None
  {
  }
}
