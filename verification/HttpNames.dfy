/** Recognition of the header names the parser knows. */
module HttpNames {
  import opened Basics
  import opened HttpChars
  import opened HttpControl
  import opened HttpSyntax

  /** A header name is a token. */
  predicate TokenText(s: string) {
    forall i :: 0 <= i < |s| ==> TokenByte(s[i])
  }

  /** The token table agrees with the standard. */
  lemma TokenTable(ch: char)
    ensures Token(ch) == if TokenByte(ch) then LowerCase(ch) else NUL
    ensures LowerCase(ch) == NUL <==> ch == NUL
  {
  }

  /** Matching progress after all characters of a name. */
  function NameScan(name: string): Scan
    requires |name| > 0
  {
    if |name| == 1 then Scan(NameStart(Token(name[0])), 0)
    else
      var k := |name| - 1;
      FieldToken(NameScan(name[..k]), name[k], Token(name[k]))
  }

  /** Whether matching came to the end of "transfer-encoding" on the way. */
  function ReachesEncoding(name: string): bool
    requires |name| > 0
  {
    |name| > 1 && (ReachesEncoding(name[..|name| - 1]) || NameScan(name).kind.TransferEncodingName?)
  }

  predicate Prefix(l: string, w: string) {
    |l| <= |w| && forall i :: 0 <= i < |l| ==> l[i] == w[i]
  }

  lemma PrefixSnoc(l: string, t: char, w: string)
    ensures Prefix(l + [t], w) <==> Prefix(l, w) && |l| < |w| && t == w[|l|]
  {
    if Prefix(l + [t], w) {
      forall i | 0 <= i < |l| ensures l[i] == w[i] {
        assert (l + [t])[i] == l[i];
      }
      assert (l + [t])[|l|] == t;
    }
  }

  predicate KnownPrefix(l: string) {
    Prefix(l, CONNECTION) || Prefix(l, PROXY_CONNECTION) || Prefix(l, CONTENT_LENGTH) ||
    Prefix(l, TRANSFER_ENCODING) || Prefix(l, UPGRADE)
  }

  /** What matching progress `h` says about the lower-cased text `l` read so far. */
  predicate Fits(l: string, h: Scan) {
    if h.kind.C? then |l| == 1 && h.index == 0 && Prefix(l, CONNECTION)
    else if h.kind.CO? then |l| == 2 && h.index == 1 && Prefix(l, CONNECTION)
    else if h.kind.CON? then |l| == 3 && h.index == 2 && Prefix(l, CONNECTION)
    else if h.kind.MatchingConnection? then 4 <= |l| < 10 && h.index == |l| - 1 && Prefix(l, CONNECTION)
    else if h.kind.MatchingProxyConnection? then 1 <= |l| < 16 && h.index == |l| - 1 && Prefix(l, PROXY_CONNECTION)
    else if h.kind.MatchingContentLength? then 4 <= |l| < 14 && h.index == |l| - 1 && Prefix(l, CONTENT_LENGTH)
    else if h.kind.MatchingTransferEncoding? then 1 <= |l| < 17 && h.index == |l| - 1 && Prefix(l, TRANSFER_ENCODING)
    else if h.kind.MatchingUpgrade? then 1 <= |l| < 7 && h.index == |l| - 1 && Prefix(l, UPGRADE)
    else if h.kind.ConnectionName? then
      (|l| == 10 && Prefix(l, CONNECTION)) || (|l| == 16 && Prefix(l, PROXY_CONNECTION))
    else if h.kind.ContentLengthName? then |l| == 14 && Prefix(l, CONTENT_LENGTH)
    else if h.kind.TransferEncodingName? then |l| == 17 && Prefix(l, TRANSFER_ENCODING)
    else if h.kind.UpgradeName? then |l| == 7 && Prefix(l, UPGRADE)
    else h.kind.General? && |l| >= 1 && !KnownPrefix(l)
  }

  /** The states a header name can leave the matcher in. */
  predicate IsNameKind(k: HeaderState) {
    k.General? || k.C? || k.CO? || k.CON? || k.MatchingConnection? || k.MatchingProxyConnection?
    || k.MatchingContentLength? || k.MatchingTransferEncoding? || k.MatchingUpgrade?
    || k.ConnectionName? || k.ContentLengthName? || k.TransferEncodingName? || k.UpgradeName?
  }

  /** The five words are told apart by their first characters. */
  lemma WordsDiffer(l: string)
    requires |l| >= 1
    ensures Prefix(l, CONNECTION) || Prefix(l, CONTENT_LENGTH) ==> l[0] == 'c'
    ensures Prefix(l, PROXY_CONNECTION) ==> l[0] == 'p'
    ensures Prefix(l, TRANSFER_ENCODING) ==> l[0] == 't'
    ensures Prefix(l, UPGRADE) ==> l[0] == 'u'
    ensures |l| >= 4 ==> !(Prefix(l, CONNECTION) && Prefix(l, CONTENT_LENGTH))
    ensures |l| <= 3 ==> (Prefix(l, CONNECTION) <==> Prefix(l, CONTENT_LENGTH))
  {
    assert Prefix(l, CONNECTION) && |l| >= 4 ==> l[3] == 'n';
    assert Prefix(l, CONTENT_LENGTH) && |l| >= 4 ==> l[3] == 't';
  }

  lemma FitsStart(t: char)
    ensures Fits([t], Scan(NameStart(t), 0))
  {
    WordsDiffer([t]);
  }

  lemma FitsNext(l: string, h: Scan, ch: char)
    requires |l| >= 1 && Fits(l, h) && Token(ch) != NUL
    ensures Fits(l + [Token(ch)], FieldToken(h, ch, Token(ch)))
  {
    hide Prefix;
    var t := Token(ch);
    PrefixSnoc(l, t, CONNECTION);
    PrefixSnoc(l, t, PROXY_CONNECTION);
    PrefixSnoc(l, t, CONTENT_LENGTH);
    PrefixSnoc(l, t, TRANSFER_ENCODING);
    PrefixSnoc(l, t, UPGRADE);
    WordsDiffer(l);
    WordsDiffer(l + [t]);
    assert ch != ' ';
  }

  lemma {:induction false} NameFits(name: string)
    requires |name| > 0 && TokenText(name)
    ensures Fits(Lowered(name), NameScan(name))
  {
    hide Fits, FieldToken;
    var k := |name| - 1;
    if k == 0 {
      TokenTable(name[0]);
      FitsStart(Token(name[0]));
      assert Lowered(name) == [Token(name[0])];
    } else {
      NameFits(name[..k]);
      TokenTable(name[k]);
      FitsNext(Lowered(name[..k]), NameScan(name[..k]), name[k]);
      assert Lowered(name) == Lowered(name[..k]) + [Token(name[k])];
    }
  }

  lemma PrefixWhole(l: string, w: string)
    ensures |l| == |w| && Prefix(l, w) <==> l == w
  {
  }

  lemma FitsMeans(l: string, h: Scan)
    requires |l| >= 1 && Fits(l, h)
    ensures h.kind.ConnectionName? <==> l == CONNECTION || l == PROXY_CONNECTION
    ensures h.kind.ContentLengthName? <==> l == CONTENT_LENGTH
    ensures h.kind.TransferEncodingName? <==> l == TRANSFER_ENCODING
    ensures h.kind.UpgradeName? <==> l == UPGRADE
    ensures IsNameKind(h.kind)
  {
    hide Prefix;
    WordsDiffer(l);
    PrefixWhole(l, CONNECTION);
    PrefixWhole(l, PROXY_CONNECTION);
    PrefixWhole(l, CONTENT_LENGTH);
    PrefixWhole(l, TRANSFER_ENCODING);
    PrefixWhole(l, UPGRADE);
  }

  /** A name is taken for a known one exactly when it is that name, whatever its case. */
  lemma NameRecognition(name: string)
    requires |name| > 0 && TokenText(name)
    ensures NameScan(name).kind.ConnectionName? <==>
            Lowered(name) == "connection" || Lowered(name) == "proxy-connection"
    ensures NameScan(name).kind.ContentLengthName? <==> Lowered(name) == "content-length"
    ensures NameScan(name).kind.TransferEncodingName? <==> Lowered(name) == "transfer-encoding"
    ensures NameScan(name).kind.UpgradeName? <==> Lowered(name) == "upgrade"
    ensures IsNameKind(NameScan(name).kind)
  {
    hide Fits, NameScan;
    NameFits(name);
    FitsMeans(Lowered(name), NameScan(name));
  }

  /** The parser remembers a Transfer-Encoding header for every name that begins with
      "transfer-encoding": a longer name is enough. */
  lemma {:induction false} EncodingRecognition(name: string)
    requires |name| > 0 && TokenText(name)
    ensures ReachesEncoding(name) <==> |name| >= 17 && Lowered(name[..17]) == "transfer-encoding"
  {
    hide NameScan;
    var k := |name| - 1;
    if k > 0 {
      NameRecognition(name);
      EncodingRecognition(name[..k]);
      if k >= 17 {
        assert name[..k][..17] == name[..17];
      } else if k == 16 {
        assert name[..17] == name;
      }
    }
  }
}
