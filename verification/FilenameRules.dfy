/** Which file names are clean, in terms of their bytes and of the device names. */
module FilenameRules {
  import opened Filename

  function UpperCase(s: string): string {
    seq(|s|, i requires 0 <= i < |s| => if 97 <= s[i] as int <= 122 then (s[i] as int - 32) as char else s[i])
  }

  /** A dot, a colon, a slash or a backslash. */
  predicate EndsStem(c: char) {
    c in ".:/\\"
  }

  /** What stands at `p`, up to its extension or the next component. */
  function Stem(s: string, p: nat): (r: string)
    requires p <= |s|
    ensures p + |r| <= |s| && r == s[p..p + |r|] && (p + |r| < |s| ==> EndsStem(s[p + |r|]))
    ensures forall i :: 0 <= i < |r| ==> !EndsStem(r[i])
    decreases |s| - p
  {
    if p == |s| || EndsStem(s[p]) then "" else [s[p]] + Stem(s, p + 1)
  }

  /** The reserved names of devices. */
  predicate Reserved(name: string) {
    || name == "AUX" || name == "CON" || name == "NUL" || name == "PRN"
    || (|name| == 4 && (name[..3] == "COM" || name[..3] == "LPT") && name[3] in "123456789")
  }

  /** Two dots, and nothing or the end of a stem behind them. */
  predicate DotDot(s: string, p: nat) {
    p + 2 <= |s| && s[p..p + 2] == ".." && (p + 2 == |s| || EndsStem(s[p + 2]))
  }

  lemma Ends(c: char)
    ensures EndsStem(c) <==> EndsDevice(c)
  {
  }

  lemma LettersGoOn(c: char)
    ensures 'A' <= ToUpper(c) <= 'Z' || '0' <= c <= '9' ==> !EndsStem(c)
    ensures ToUpper(c) == if 97 <= c as int <= 122 then (c as int - 32) as char else c
  {
  }

  lemma StemLength(s: string, p: nat, n: nat)
    requires p + n <= |s| && (forall k :: p <= k < p + n ==> !EndsStem(s[k])) && (p + n == |s| || EndsStem(s[p + n]))
    ensures |Stem(s, p)| == n
  {
    hide EndsStem;
    var r := Stem(s, p);
    assert forall i :: 0 <= i < |r| ==> s[p + i] == r[i];
  }

  predicate IsName(name: string, pattern: string, number: bool)
    requires |pattern| == 3
  {
    if number then |name| == 4 && name[..3] == pattern && name[3] in "123456789" else name == pattern
  }

  lemma DeviceStem(s: string, p: nat, pattern: string, number: bool)
    requires p <= |s| && |pattern| == 3 && (forall k :: 0 <= k < 3 ==> 'A' <= pattern[k] <= 'Z')
    requires Device(s, p, pattern, number)
    ensures IsName(UpperCase(Stem(s, p)), pattern, number)
  {
    hide EndsStem, EndsDevice, ToUpper, Stem;
    var n := if number then 4 else 3;
    forall k | p <= k < p + n ensures !EndsStem(s[k]) {
      LettersGoOn(s[k]);
      assert k < p + 3 ==> ToUpper(s[p + (k - p)]) == pattern[k - p];
    }
    if p + n < |s| {
      Ends(s[p + n]);
    }
    StemLength(s, p, n);
    var r := Stem(s, p);
    forall k | 0 <= k < 3 ensures UpperCase(r)[k] == pattern[k] {
      LettersGoOn(s[p + k]);
      assert r[k] == s[p..p + |r|][k] == s[p + k];
    }
    assert number ==> r[3] == s[p..p + |r|][3] == s[p + 3];
  }

  lemma StemDevice(s: string, p: nat, pattern: string, number: bool)
    requires p <= |s| && |pattern| == 3 && IsName(UpperCase(Stem(s, p)), pattern, number)
    ensures Device(s, p, pattern, number)
  {
    hide EndsStem, EndsDevice, ToUpper, Stem;
    var r := Stem(s, p);
    var name := UpperCase(r);
    forall k | 0 <= k < 3 ensures ToUpper(s[p + k]) == pattern[k] {
      LettersGoOn(s[p + k]);
      assert name[..3][k] == name[k] && r[k] == s[p..p + |r|][k] == s[p + k];
    }
    assert number ==> r[3] == s[p..p + |r|][3] == s[p + 3];
    if p + |r| < |s| {
      Ends(s[p + |r|]);
    }
  }

  /** A pattern of three letters, with or without a digit, matches exactly as a stem. */
  lemma DeviceIs(s: string, p: nat, pattern: string, number: bool)
    requires p <= |s| && |pattern| == 3 && forall k :: 0 <= k < 3 ==> 'A' <= pattern[k] <= 'Z'
    ensures Device(s, p, pattern, number) <==> IsName(UpperCase(Stem(s, p)), pattern, number)
  {
    hide Device, IsName, Stem;
    if Device(s, p, pattern, number) {
      DeviceStem(s, p, pattern, number);
    }
    if IsName(UpperCase(Stem(s, p)), pattern, number) {
      StemDevice(s, p, pattern, number);
    }
  }

  lemma SpecialIs(s: string, p: nat)
    requires p <= |s|
    ensures SpecialAt(s, p) <==> Reserved(UpperCase(Stem(s, p))) || DotDot(s, p)
  {
    hide Stem, UpperCase;
    DeviceIs(s, p, "AUX", false);
    DeviceIs(s, p, "CON", false);
    DeviceIs(s, p, "NUL", false);
    DeviceIs(s, p, "PRN", false);
    DeviceIs(s, p, "COM", true);
    DeviceIs(s, p, "LPT", true);
    DotDotIs(s, p);
    hide Device;
  }

  lemma DotDotIs(s: string, p: nat)
    ensures Device(s, p, "..", false) <==> DotDot(s, p)
  {
    if p + 2 < |s| {
      Ends(s[p + 2]);
    }
  }

  /** A component starts at the front and behind every slash and backslash. */
  predicate Begins(s: string, p: nat) {
    p < |s| && (p == 0 || s[p - 1] == '/' || s[p - 1] == '\\')
  }

  /** At most 255 bytes, no control bytes, none of the characters ? < > : * | and quotation mark, no slash
      or backslash in front, and no component whose stem is reserved, in any case, or which begins with
      two dots. */
  predicate CleanName(s: string) {
    && |s| <= 255
    && (forall i :: 0 <= i < |s| ==> s[i] as int >= 32 && !(128 <= s[i] as int < 160) && s[i] !in "?<>:*|\"")
    && (s != "" ==> s[0] != '/' && s[0] != '\\')
    && NoReserved(s)
  }

  predicate NoReserved(s: string) {
    forall p :: 0 <= p < |s| && Begins(s, p) ==> !Reserved(UpperCase(Stem(s, p))) && !DotDot(s, p)
  }

  lemma NoDeviceIs(s: string)
    ensures NoDevice(s) <==> NoReserved(s)
  {
    hide Stem, UpperCase, SpecialAt, Reserved, DotDot;
    forall p | 0 <= p < |s|
      ensures SpecialAt(s, p) <==> Reserved(UpperCase(Stem(s, p))) || DotDot(s, p)
      ensures Begins(s, p) <==> StartsComponent(s, p)
    {
      SpecialIs(s, p);
    }
  }

  lemma CleanExactly(s: string)
    ensures Clean(s) <==> CleanName(s)
  {
    hide NoReserved, SpecialAt;
    NoDeviceIs(s);
  }

  /** The sanitiser in these terms: its result is a clean name; it is the name itself if and only if that
      is clean; and a name without reserved components has each bad byte, and a slash in front, replaced
      by an underscore, and no other change but its length. */
  method Sanitize(data: string) returns (r: string)
    ensures CleanName(r) && (r == data <==> CleanName(data))
    ensures var d := if |data| > 255 then data[..255] else data;
            NoReserved(d) ==>
              && |r| == |d|
              && forall i :: 0 <= i < |d| ==>
                   var bad := d[i] as int < 32 || 128 <= d[i] as int < 160 || d[i] in "?<>:*|\""
                              || (i == 0 && (d[0] == '/' || d[0] == '\\'));
                   r[i] == if bad then '_' else d[i]
  {
    hide Clean, CleanName, NoDevice, NoReserved;
    r := SanitizeFilename(data);
    CleanExactly(r);
    CleanExactly(data);
    NoDeviceIs(Cut(data));
  }
}
