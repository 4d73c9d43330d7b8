/** The file name sanitiser: one pass that rewrites the name in place. */
module Filename {
  const MAX_LENGTH := 255
  const REPLACEMENT: char := '_'

  function ToUpper(c: char): char {
    if 'a' <= c <= 'z' then (c as int - 32) as char else c
  }

  predicate IsSlash(c: char) {
    c == '/' || c == '\\'
  }

  /** Bytes that no name may hold. */
  predicate Forbidden(c: char) {
    c as int < 32 || 0x80 <= c as int <= 0x9F || c in "?<>:*|\""
  }

  /** Characters that end a device name. */
  predicate EndsDevice(c: char) {
    c == '.' || c == ':' || IsSlash(c)
  }

  /** The pattern stands at `ofs`, in upper or lower case. */
  predicate Matches(s: string, ofs: nat, pattern: string) {
    ofs + |pattern| <= |s| && forall k :: 0 <= k < |pattern| ==> ToUpper(s[ofs + k]) == pattern[k]
  }

  /** A device name, or "..", stands alone at `ofs`: behind it the name ends or goes on after a dot,
      colon or slash.  Some devices carry a digit. */
  predicate Device(s: string, ofs: nat, pattern: string, number: bool) {
    && Matches(s, ofs, pattern)
    && var q := ofs + |pattern|;
       && (number ==> q < |s| && '1' <= s[q] <= '9')
       && var e := if number then q + 1 else q;
          e >= |s| || EndsDevice(s[e])
  }

  predicate SpecialAt(s: string, p: nat) {
    || Device(s, p, "AUX", false) || Device(s, p, "CON", false) || Device(s, p, "COM", true)
    || Device(s, p, "LPT", true) || Device(s, p, "NUL", false) || Device(s, p, "PRN", false)
       || Device(s, p, "..", false)
  }

  predicate StartsComponent(s: string, p: nat) {
    p <= |s| && (p == 0 || IsSlash(s[p - 1]))
  }

  /** The names that are safe to use below a directory. */
  predicate Clean(s: string) {
    && |s| <= MAX_LENGTH
    && (forall i :: 0 <= i < |s| ==> !Forbidden(s[i]))
    && (s != "" ==> !IsSlash(s[0]))
    && forall p :: 0 <= p < |s| && StartsComponent(s, p) ==> !SpecialAt(s, p)
  }

  // ---------------------------------------------------------------- what the pass keeps

  predicate IsPattern(pattern: string) {
    pattern != "" && forall k :: 0 <= k < |pattern| ==> ('A' <= pattern[k] <= 'Z' || pattern[k] == '.')
  }

  /** Writing the replacement never makes a device name. */
  lemma DeviceReplaced(s: string, i: nat, p: nat, pattern: string, number: bool)
    requires i < |s| && IsPattern(pattern) && Device(s[i := REPLACEMENT], p, pattern, number)
    ensures Device(s, p, pattern, number)
  {
    var t := s[i := REPLACEMENT];
    forall k | 0 <= k < |pattern| ensures ToUpper(s[p + k]) == pattern[k] {
      assert ToUpper(t[p + k]) == pattern[k];
      assert p + k != i;
    }
  }

  /** A device name ends at the next slash at the latest. */
  lemma DeviceLocal(s: string, t: string, k: nat, p: nat, pattern: string, number: bool)
    requires p < k <= |s| && k <= |t| && s[..k] == t[..k] && IsSlash(s[k - 1]) && IsPattern(pattern)
    requires Device(t, p, pattern, number)
    ensures Device(s, p, pattern, number)
  {
    assert forall j :: 0 <= j < k ==> s[j] == s[..k][j] && t[j] == t[..k][j];
    if p + |pattern| >= k {
      PatternChar(t, p, pattern, k - 1 - p);
    }
  }

  lemma PatternChar(s: string, p: nat, pattern: string, j: nat)
    requires Matches(s, p, pattern) && IsPattern(pattern) && j < |pattern|
    ensures !IsSlash(s[p + j])
  {
    assert ToUpper(s[p + j]) == pattern[j];
  }

  lemma SpecialReplaced(s: string, i: nat, p: nat)
    requires i < |s| && SpecialAt(s[i := REPLACEMENT], p)
    ensures SpecialAt(s, p)
  {
    var t := s[i := REPLACEMENT];
    if Device(t, p, "AUX", false) { DeviceReplaced(s, i, p, "AUX", false); }
    else if Device(t, p, "CON", false) { DeviceReplaced(s, i, p, "CON", false); }
    else if Device(t, p, "COM", true) { DeviceReplaced(s, i, p, "COM", true); }
    else if Device(t, p, "LPT", true) { DeviceReplaced(s, i, p, "LPT", true); }
    else if Device(t, p, "NUL", false) { DeviceReplaced(s, i, p, "NUL", false); }
    else if Device(t, p, "PRN", false) { DeviceReplaced(s, i, p, "PRN", false); }
    else { DeviceReplaced(s, i, p, "..", false); }
    hide Device;
  }

  lemma SpecialLocal(s: string, t: string, k: nat, p: nat)
    requires p < k <= |s| && k <= |t| && s[..k] == t[..k] && IsSlash(s[k - 1]) && SpecialAt(t, p)
    ensures SpecialAt(s, p)
  {
    if Device(t, p, "AUX", false) { DeviceLocal(s, t, k, p, "AUX", false); }
    else if Device(t, p, "CON", false) { DeviceLocal(s, t, k, p, "CON", false); }
    else if Device(t, p, "COM", true) { DeviceLocal(s, t, k, p, "COM", true); }
    else if Device(t, p, "LPT", true) { DeviceLocal(s, t, k, p, "LPT", true); }
    else if Device(t, p, "NUL", false) { DeviceLocal(s, t, k, p, "NUL", false); }
    else if Device(t, p, "PRN", false) { DeviceLocal(s, t, k, p, "PRN", false); }
    else { DeviceLocal(s, t, k, p, "..", false); }
    hide Device;
  }

  /** The first character tells which device a component can be. */
  lemma SpecialFirst(s: string, p: nat)
    requires p < |s| && SpecialAt(s, p)
    ensures var c := ToUpper(s[p]);
            && (Device(s, p, "AUX", false) ==> c == 'A') && (Device(s, p, "LPT", true) ==> c == 'L')
            && (Device(s, p, "CON", false) || Device(s, p, "COM", true) ==> c == 'C')
            && (Device(s, p, "NUL", false) ==> c == 'N') && (Device(s, p, "PRN", false) ==> c == 'P')
            && (Device(s, p, "..", false) ==> c == '.')
    ensures s[p] != REPLACEMENT
  {
    DeviceFirst(s, p, "AUX", false);
    DeviceFirst(s, p, "CON", false);
    DeviceFirst(s, p, "COM", true);
    DeviceFirst(s, p, "LPT", true);
    DeviceFirst(s, p, "NUL", false);
    DeviceFirst(s, p, "PRN", false);
    DeviceFirst(s, p, "..", false);
    hide Device;
  }

  lemma DeviceFirst(s: string, p: nat, pattern: string, number: bool)
    requires p < |s| && IsPattern(pattern)
    ensures Device(s, p, pattern, number) ==> ToUpper(s[p]) == pattern[0]
  {
    assert Device(s, p, pattern, number) ==> ToUpper(s[p + 0]) == pattern[0];
  }

  // ---------------------------------------------------------------- the pass

  function DeviceLength(pattern: string, number: bool): nat {
    |pattern| + if number then 1 else 0
  }

  /** `sanitizeSpecialFile`: a device name at `ofs` becomes one replacement character. */
  method SanitizeSpecialFile(source: string, ofs: nat, pattern: string, includeNumber: bool) returns (r: string)
    requires ofs < |source| && IsPattern(pattern)
    ensures r == if Device(source, ofs, pattern, includeNumber)
                 then source[..ofs] + [REPLACEMENT] + source[ofs + DeviceLength(pattern, includeNumber)..] else source
    ensures Device(source, ofs, pattern, includeNumber) ==> ofs + DeviceLength(pattern, includeNumber) <= |source|
  {
    var i, p := ofs, 0;
    while p < |pattern|
      invariant p <= |pattern| && i == ofs + p <= |source|
      invariant forall k :: 0 <= k < p ==> ToUpper(source[ofs + k]) == pattern[k]
    {
      if i >= |source| || ToUpper(source[i]) != pattern[p] {
        return source;
      }
      i := i + 1;
      p := p + 1;
    }
    if includeNumber {
      if i >= |source| || source[i] < '1' || source[i] > '9' {
        return source;
      }
      i := i + 1;
    }
    r := source;
    if i >= |source| || EndsDevice(source[i]) {
      r := r[..ofs + 1] + r[i..];
      r := r[ofs := REPLACEMENT];
    }
  }

  /** What the first special entry of a component becomes. */
  ghost predicate ComponentDone(s: string, p: nat, r: string)
    requires p < |s|
  {
    && p < |r| <= |s| && r[..p] == s[..p] && !SpecialAt(r, p)
    && (!SpecialAt(s, p) ==> r == s)
  }

  lemma Erased(s: string, p: nat, n: nat)
    requires p < |s| && 1 <= n && p + n <= |s| && SpecialAt(s, p)
    ensures ComponentDone(s, p, s[..p] + [REPLACEMENT] + s[p + n..])
  {
    hide Device;
    var r := s[..p] + [REPLACEMENT] + s[p + n..];
    if SpecialAt(r, p) {
      SpecialFirst(r, p);
    }
  }

  /** The switch on the first character of a component. */
  method SanitizeComponent(data: string, i: nat) returns (r: string)
    requires i < |data|
    ensures ComponentDone(data, i, r)
  {
    hide Device;
    r := data;
    if SpecialAt(data, i) {
      SpecialFirst(data, i);
    }
    var c := ToUpper(data[i]);
    ghost var n := if Device(data, i, "AUX", false) || Device(data, i, "CON", false) || Device(data, i, "NUL", false)
                      || Device(data, i, "PRN", false) then 3 else if Device(data, i, "..", false) then 2 else 4;
    if c == 'A' {
      r := SanitizeSpecialFile(r, i, "AUX", false);
    } else if c == 'C' {
      r := SanitizeSpecialFile(r, i, "CON", false);
      DeviceFirst(r, i, "COM", true);
      r := SanitizeSpecialFile(r, i, "COM", true);
    } else if c == 'L' {
      r := SanitizeSpecialFile(r, i, "LPT", true);
    } else if c == 'N' {
      r := SanitizeSpecialFile(r, i, "NUL", false);
    } else if c == 'P' {
      r := SanitizeSpecialFile(r, i, "PRN", false);
    } else if c == '.' {
      r := SanitizeSpecialFile(r, i, "..", false);
    }
    if SpecialAt(data, i) {
      Erased(data, i, n);
    }
  }

  /** Clean as far as the pass has come. */
  predicate CleanTo(s: string, i: nat) {
    && i <= |s| <= MAX_LENGTH
    && (forall j :: 0 <= j < i ==> !Forbidden(s[j]))
    && (i > 0 ==> !IsSlash(s[0]))
    && forall p :: 0 <= p < i && StartsComponent(s, p) ==> !SpecialAt(s, p)
  }

  lemma ComponentKeeps(s: string, i: nat, r: string)
    requires i < |s| && CleanTo(s, i) && StartsComponent(s, i) && ComponentDone(s, i, r)
    ensures CleanTo(r, i) && StartsComponent(r, i)
  {
    hide SpecialAt, Forbidden;
    assert forall j :: 0 <= j < i ==> r[j] == r[..i][j] && s[j] == s[..i][j];
    forall p | 0 <= p < i && StartsComponent(r, p) ensures !SpecialAt(r, p) {
      assert StartsComponent(s, p);
      if SpecialAt(r, p) {
        SpecialLocal(s, r, i, p);
      }
    }
  }

  lemma CharKept(s: string, i: nat)
    requires i < |s| && CleanTo(s, i) && (StartsComponent(s, i) ==> !SpecialAt(s, i))
    requires !Forbidden(s[i]) && (i == 0 ==> !IsSlash(s[0]))
    ensures CleanTo(s, i + 1)
  {
    hide SpecialAt, Forbidden;
  }

  lemma CharReplaced(s: string, i: nat)
    requires i < |s| && CleanTo(s, i) && (StartsComponent(s, i) ==> !SpecialAt(s, i))
    ensures CleanTo(s[i := REPLACEMENT], i + 1)
  {
    var t := s[i := REPLACEMENT];
    forall p | 0 <= p < i + 1 && StartsComponent(t, p) ensures !SpecialAt(t, p) {
      assert StartsComponent(s, p);
      if SpecialAt(t, p) {
        SpecialReplaced(s, i, p);
      }
    }
    hide SpecialAt;
  }

  /** The name as far as it is looked at. */
  function Cut(data: string): string {
    if |data| > MAX_LENGTH then data[..MAX_LENGTH] else data
  }

  /** No component is a device or "..". */
  predicate NoDevice(s: string) {
    forall p :: 0 <= p < |s| && StartsComponent(s, p) ==> !SpecialAt(s, p)
  }

  /** What one character becomes. */
  function Replaced(s: string, i: nat): char
    requires i < |s|
  {
    if Forbidden(s[i]) || (i == 0 && IsSlash(s[0])) then REPLACEMENT else s[i]
  }

  /** Whether a device stands at `p` depends on what follows only. */
  lemma SpecialSuffix(s: string, t: string, p: nat)
    requires |s| == |t| && forall i :: p <= i < |s| ==> s[i] == t[i]
    ensures SpecialAt(s, p) <==> SpecialAt(t, p)
  {
  }

  /** Characters before `i` have been replaced one by one, and the rest is untouched. */
  predicate ReplacedTo(d: string, r: string, i: nat) {
    && |r| == |d| && i <= |d|
    && (forall j :: 0 <= j < i ==> r[j] == Replaced(d, j))
    && (forall j :: i <= j < |d| ==> r[j] == d[j])
  }

  lemma NoDeviceHere(d: string, r: string, i: nat)
    requires NoDevice(d) && ReplacedTo(d, r, i) && i < |d| && StartsComponent(r, i)
    ensures !SpecialAt(r, i)
  {
    hide SpecialAt;
    assert StartsComponent(d, i);
    SpecialSuffix(d, r, i);
  }

  /** `sanitize_filename`: the result is clean, and a name is left as it is exactly if it is clean.
      So a second pass changes nothing. */
  method SanitizeFilename(data: string) returns (r: string)
    ensures Clean(r)
    ensures r == data <==> Clean(data)
    ensures NoDevice(Cut(data)) ==> ReplacedTo(Cut(data), r, |Cut(data)|)
  {
    hide SpecialAt, Forbidden, ComponentDone, NoDevice;
    r := Cut(data);
    ghost var d := r;
    var checkForSpecialEntries := true;
    var i := 0;
    while i < |r|
      invariant CleanTo(r, i) && (checkForSpecialEntries <==> StartsComponent(r, i))
      invariant Clean(data) ==> r == data
      invariant NoDevice(d) ==> ReplacedTo(d, r, i)
      decreases |r| - i
    {
      if checkForSpecialEntries {
        checkForSpecialEntries := false;
        var next := SanitizeComponent(r, i);
        if NoDevice(d) {
          NoDeviceHere(d, r, i);
        }
        ComponentFacts(r, i, next);
        ComponentKeeps(r, i, next);
        r := next;
      }
      if Forbidden(r[i]) {
        CharReplaced(r, i);
        r := r[i := REPLACEMENT];
      } else if IsSlash(r[i]) && i == 0 {
        CharReplaced(r, i);
        r := r[i := REPLACEMENT];
      } else {
        CharKept(r, i);
        checkForSpecialEntries := IsSlash(r[i]);
      }
      i := i + 1;
    }
  }

  lemma ComponentFacts(s: string, p: nat, r: string)
    requires p < |s| && ComponentDone(s, p, r)
    ensures p < |r| <= |s| && !SpecialAt(r, p) && (!SpecialAt(s, p) ==> r == s)
  {
    hide SpecialAt;
  }

  /** Two passes are one pass. */
  method SanitizeTwice(data: string) returns (once: string, twice: string)
    ensures twice == once && Clean(once)
  {
    once := SanitizeFilename(data);
    twice := SanitizeFilename(once);
  }
}
