/** Markup-version detection (`getHTMLVersion` in
    server/internal/crawler/crawler.go): the body is trimmed and
    lower-cased, then searched for a fixed, ordered table of doctype
    signatures; the first signature found anywhere names the version. */
module Doctype {
  import opened Text

  datatype Signature = Signature(keyword: string, version: string)

  const Unknown: string := "Unknown"

  /** The signature table, in the order in which it is searched. */
  const Signatures: seq<Signature> := [
    Signature("<!doctype html>", "HTML5"),
    Signature("-//w3c//dtd html 4.01//en", "HTML 4.01 Strict"),
    Signature("-//w3c//dtd xhtml 1.0 strict//en", "XHTML 1.0 Strict"),
    Signature("-//ietf//dtd html 2.0//en", "HTML 2.0"),
    Signature("-//w3c//dtd html 3.2 final//en", "HTML 3.2"),
    Signature("-//w3c//dtd xhtml 1.1//en", "XHTML 1.1"),
    Signature("html profile=", "HTML5 with profile")
  ]

  /** Every label the detector can answer with. */
  const Labels: set<string> :=
    {"HTML5", "HTML 4.01 Strict", "XHTML 1.0 Strict", "HTML 2.0", "HTML 3.2",
     "XHTML 1.1", "HTML5 with profile", Unknown}

  /** The text the signatures are searched in. */
  function Normalize(body: string): string
  {
    ToLower(TrimSpace(body))
  }

  /** The version of the first signature of `table` that occurs in `text`. */
  function FirstMatch(text: string, table: seq<Signature>): (version: string)
    ensures version == Unknown || exists k :: 0 <= k < |table| && version == table[k].version
  {
    if table == [] then Unknown
    else if Contains(text, table[0].keyword) then table[0].version
    else FirstMatch(text, table[1..])
  }

  /** The label `getHTMLVersion` gives a body. */
  function VersionOf(body: string): (version: string)
    ensures version in Labels
  {
    FirstMatch(Normalize(body), Signatures)
  }

  /** `getHTMLVersion`: a search through the table that stops at the first hit. */
  method GetHTMLVersion(body: string) returns (version: string)
    ensures version == VersionOf(body)
  {
    var bodyString := ToLower(TrimSpace(body));
    var i := 0;
    while i < |Signatures|
      invariant 0 <= i <= |Signatures|
      invariant FirstMatch(bodyString, Signatures[i..]) == FirstMatch(bodyString, Signatures)
    {
      if Contains(bodyString, Signatures[i].keyword) {
        return Signatures[i].version;
      }
      i := i + 1;
    }
    return Unknown;
  }

  /** The first-match rule, stated by position in the table: the answer is
      the version of signature `k` exactly when signature `k` occurs and
      no earlier one does, and "Unknown" exactly when none occurs. */
  lemma FirstMatchIsFirst(text: string, table: seq<Signature>)
    ensures FirstMatch(text, table) == Unknown
            || exists k :: 0 <= k < |table| && FirstMatch(text, table) == table[k].version
                           && Contains(text, table[k].keyword)
                           && forall j :: 0 <= j < k ==> !Contains(text, table[j].keyword)
    ensures (forall j :: 0 <= j < |table| ==> !Contains(text, table[j].keyword))
            ==> FirstMatch(text, table) == Unknown
    ensures (exists j :: 0 <= j < |table| && Contains(text, table[j].keyword))
            ==> exists k :: 0 <= k < |table| && FirstMatch(text, table) == table[k].version
  {
    FirstMatchWitness(text, table);
    FirstMatchMisses(text, table);
    FirstMatchHits(text, table);
  }

  /** A version answer comes from an occurring signature with no earlier
      one occurring. */
  lemma {:induction false} FirstMatchWitness(text: string, table: seq<Signature>)
    ensures FirstMatch(text, table) == Unknown
            || exists k :: 0 <= k < |table| && FirstMatch(text, table) == table[k].version
                           && Contains(text, table[k].keyword)
                           && forall j :: 0 <= j < k ==> !Contains(text, table[j].keyword)
  {
    if table != [] && !Contains(text, table[0].keyword) {
      var rest := table[1..];
      FirstMatchWitness(text, rest);
      if FirstMatch(text, rest) != Unknown {
        var k :| 0 <= k < |rest| && FirstMatch(text, rest) == rest[k].version
                 && Contains(text, rest[k].keyword)
                 && forall j :: 0 <= j < k ==> !Contains(text, rest[j].keyword);
        forall j | 0 <= j < k + 1 ensures !Contains(text, table[j].keyword) {
          if j > 0 { assert table[j] == rest[j - 1]; }
        }
        assert table[k + 1] == rest[k];
      }
    }
  }

  /** With no signature occurring the answer is "Unknown". */
  lemma {:induction false} FirstMatchMisses(text: string, table: seq<Signature>)
    ensures (forall j :: 0 <= j < |table| ==> !Contains(text, table[j].keyword))
            ==> FirstMatch(text, table) == Unknown
  {
    if table != [] {
      assert forall j :: 0 <= j < |table[1..]| ==> table[1..][j] == table[j + 1];
      FirstMatchMisses(text, table[1..]);
    }
  }

  /** With some signature occurring the answer is a version of the table. */
  lemma {:induction false} FirstMatchHits(text: string, table: seq<Signature>)
    ensures (exists j :: 0 <= j < |table| && Contains(text, table[j].keyword))
            ==> exists k :: 0 <= k < |table| && FirstMatch(text, table) == table[k].version
  {
    if table != [] && !Contains(text, table[0].keyword) {
      FirstMatchHits(text, table[1..]);
      if exists j :: 0 <= j < |table| && Contains(text, table[j].keyword) {
        var j :| 0 <= j < |table| && Contains(text, table[j].keyword);
        assert Contains(text, table[1..][j - 1].keyword);
        var k :| 0 <= k < |table[1..]| && FirstMatch(text, table[1..]) == table[1..][k].version;
        assert FirstMatch(text, table) == table[k + 1].version;
      }
    }
  }

  /** The detector's answer is always one of the seven labels or "Unknown";
      it is "Unknown" exactly when no signature occurs in the normalized body. */
  lemma VersionOfRange(body: string)
    ensures VersionOf(body) in Labels
    ensures VersionOf(body) == Unknown
            <==> forall j :: 0 <= j < |Signatures| ==> !Contains(Normalize(body), Signatures[j].keyword)
  {
    FirstMatchIsFirst(Normalize(body), Signatures);
    SignatureVersions();
  }

  /** Every version in the table is a label other than "Unknown". */
  lemma SignatureVersions()
    ensures forall k :: 0 <= k < |Signatures| ==> Signatures[k].version in Labels && Signatures[k].version != Unknown
  {
  }

  /** Leading and trailing white space never changes the answer: every
      signature starts and ends with a visible character, so trimming
      neither hides nor creates an occurrence. */
  lemma {:induction false} TrimDoesNotMatter(body: string)
    ensures VersionOf(body) == FirstMatch(ToLower(body), Signatures)
  {
    KeywordEnds();
    forall j | 0 <= j < |Signatures|
      ensures Contains(Normalize(body), Signatures[j].keyword) <==> Contains(ToLower(body), Signatures[j].keyword)
    {
      TrimmedSearch(body, Signatures[j].keyword);
    }
    SameHitsSameMatch(Normalize(body), ToLower(body), Signatures);
  }

  /** Every keyword starts and ends with a visible character. */
  lemma KeywordEnds()
    ensures forall j :: 0 <= j < |Signatures| ==>
      var k := Signatures[j].keyword; |k| > 0 && !IsSpace(k[0]) && !IsSpace(k[|k| - 1])
  {
    forall j | 0 <= j < |Signatures|
      ensures var k := Signatures[j].keyword; |k| > 0 && !IsSpace(k[0]) && !IsSpace(k[|k| - 1])
    {
      var k := Signatures[j].keyword;
      assert k[0] in {'<', '-', 'h'} && k[|k| - 1] in {'>', 'n', '='};
    }
  }

  /** Two texts in which the same signatures occur get the same answer. */
  lemma {:induction false} SameHitsSameMatch(t1: string, t2: string, table: seq<Signature>)
    requires forall j :: 0 <= j < |table| ==> (Contains(t1, table[j].keyword) <==> Contains(t2, table[j].keyword))
    ensures FirstMatch(t1, table) == FirstMatch(t2, table)
  {
    if table != [] {
      assert forall j :: 0 <= j < |table[1..]| ==> table[1..][j] == table[j + 1];
      SameHitsSameMatch(t1, t2, table[1..]);
    }
  }

  /** "<!doctype html>" is searched first, so wherever it occurs
      (in any letter case, after anything) the answer is "HTML5". */
  lemma {:induction false} DoctypeHtmlWins(body: string)
    requires Contains(ToLower(body), "<!doctype html>")
    ensures VersionOf(body) == "HTML5"
  {
    TrimDoesNotMatter(body);
  }

  /** "<!DOCTYPE html>" after any prefix (leading spaces, a newline, ...)
      is detected as "HTML5". */
  lemma {:induction false} DoctypeAfterPrefix(prefix: string, rest: string)
    ensures VersionOf(prefix + "<!DOCTYPE html>" + rest) == "HTML5"
  {
    var body := prefix + "<!DOCTYPE html>" + rest;
    ToLowerConcat(prefix + "<!DOCTYPE html>", rest);
    ToLowerConcat(prefix, "<!DOCTYPE html>");
    assert ToLower("<!DOCTYPE html>") == "<!doctype html>";
    var low := ToLower(body);
    assert low == ToLower(prefix) + "<!doctype html>" + ToLower(rest);
    assert low[|prefix|..|prefix| + 15] == "<!doctype html>";
    ContainsAt(low, "<!doctype html>", |prefix|);
    DoctypeHtmlWins(body);
  }

  /** An empty body has no signature. */
  lemma EmptyBodyIsUnknown()
    ensures VersionOf("") == Unknown
  {
    VersionOfRange("");
    forall j | 0 <= j < |Signatures| ensures !Contains(Normalize(""), Signatures[j].keyword) {
      assert Normalize("") == "";
    }
  }

  /** A profile doctype, `<!DOCTYPE html profile=...`, lacks the substring
      "<!doctype html>" and is labelled "HTML5 with profile", as long as the
      rest of the body holds no other signature (none of them can occur
      without a '-', and "<!doctype html>" needs a second '!'). */
  lemma {:induction false} ProfileDoctype(rest: string)
    requires '!' !in rest && '-' !in rest
    ensures VersionOf("<!DOCTYPE html profile=" + rest) == "HTML5 with profile"
  {
    var body := "<!DOCTYPE html profile=" + rest;
    ToLowerConcat("<!DOCTYPE html profile=", rest);
    LowerProfileHead();
    LowerKeepsAbsence(rest, '!');
    LowerKeepsAbsence(rest, '-');
    var low := "<!" + "doctype html profile=" + ToLower(rest);
    ProfileHits(low, ToLower(rest));
    TrimDoesNotMatter(body);
    OnlyLastSignature(low);
  }

  lemma LowerProfileHead()
    ensures ToLower("<!DOCTYPE html profile=") == "<!" + "doctype html profile="
  {
    ToLowerConcat("<!", "DOCTYPE html profile=");
    assert "<!" + "DOCTYPE html profile=" == "<!DOCTYPE html profile=";
    assert ToLower("<!") == "<!";
    LowerDoctypeWord();
  }

  lemma LowerDoctypeWord()
    ensures ToLower("DOCTYPE html profile=") == "doctype html profile="
  {
    ToLowerConcat("DOCTYPE", " html profile=");
    assert "DOCTYPE" + " html profile=" == "DOCTYPE html profile=";
    assert ToLower("DOCTYPE") == "doctype";
    assert ToLower(" html profile=") == " html profile=";
  }

  /** Signatures that do not occur are skipped over. */
  lemma {:induction false} SkipAbsent(text: string, table: seq<Signature>, k: nat)
    requires k <= |table|
    requires forall j :: 0 <= j < k ==> !Contains(text, table[j].keyword)
    ensures FirstMatch(text, table) == FirstMatch(text, table[k..])
  {
    if k > 0 {
      assert forall j :: 0 <= j < k - 1 ==> table[1..][j] == table[j + 1];
      SkipAbsent(text, table[1..], k - 1);
      assert table[1..][k - 1..] == table[k..];
    }
  }

  /** A text in which only the last signature occurs. */
  lemma OnlyLastSignature(low: string)
    requires Contains(low, "html profile=")
    requires forall j :: 0 <= j < 6 ==> !Contains(low, Signatures[j].keyword)
    ensures FirstMatch(low, Signatures) == "HTML5 with profile"
  {
    SkipAbsent(low, Signatures, 6);
    assert Signatures[6..] == [Signature("html profile=", "HTML5 with profile")];
  }

  /** Which signatures occur in a lower-cased profile doctype. */
  lemma ProfileHits(low: string, rest: string)
    requires low == "<!" + "doctype html profile=" + rest
    requires '!' !in rest && '-' !in rest
    ensures Contains(low, "html profile=")
    ensures forall j :: 0 <= j < 6 ==> !Contains(low, Signatures[j].keyword)
  {
    ProfileKeywordOccurs(low, rest);
    NoDashedSignature(low, rest);
    NoSecondBang(low, rest);
    assert Signatures[0].keyword == "<!doctype html>";
  }

  /** "html profile=" occurs at index 10 of a lower-cased profile doctype. */
  lemma ProfileKeywordOccurs(low: string, rest: string)
    requires low == "<!" + "doctype html profile=" + rest
    ensures Contains(low, "html profile=")
  {
    assert low[10..23] == "html profile=";
    ContainsAt(low, "html profile=", 10);
  }

  /** The five signatures that start with '-' cannot occur in a profile
      doctype without a '-'. */
  lemma NoDashedSignature(low: string, rest: string)
    requires low == "<!" + "doctype html profile=" + rest
    requires '-' !in rest
    ensures forall j :: 1 <= j < 6 ==> !Contains(low, Signatures[j].keyword)
  {
    var head := "<!" + "doctype html profile=";
    assert '-' !in head;
    assert '-' !in low by {
      forall i | 0 <= i < |low| ensures low[i] != '-' {
        if i < |head| {
          assert low[i] == head[i];
        } else {
          assert low[i] == rest[i - |head|];
        }
      }
    }
    forall j | 1 <= j < 6 ensures !Contains(low, Signatures[j].keyword) {
      assert Signatures[j].keyword[0] == '-';
      AbsentCharBlocks(low, Signatures[j].keyword, '-');
    }
  }

  /** "<!doctype html>" cannot occur: its '!' could only be the one at index 1,
      and the fifteenth character there is a space, not '>'. */
  lemma NoSecondBang(low: string, rest: string)
    requires low == "<!" + "doctype html profile=" + rest
    requires '!' !in rest
    ensures !Contains(low, "<!doctype html>")
  {
    var key := "<!doctype html>";
    var mid := "doctype html profile=";
    assert '!' !in mid;
    forall i | 0 <= i ensures !OccursAt(low, key, i) {
      if i + 15 > |low| {
      } else if i == 0 {
        assert low[i..i + 15][14] == ' ';
      } else if i + 1 < 23 {
        assert low[i..i + 15][1] == mid[i - 1] != '!';
      } else {
        assert low[i..i + 15][1] == rest[i + 1 - 23] != '!';
      }
    }
    ContainsIff(low, key);
  }

  /** The profile example with the rest of an actual page. */
  lemma ProfileDoctypeExample()
    ensures VersionOf("<!DOCTYPE html profile=" + "\"http://www.w3.org/2000/svg\">"
                      + "\n<html><body></body></html>") == "HTML5 with profile"
  {
    var site := "\"http://www.w3.org/2000/svg\">";
    var page := "\n<html><body></body></html>";
    PlainText(site, page);
    ProfileDoctype(site + page);
    assert "<!DOCTYPE html profile=" + (site + page) == "<!DOCTYPE html profile=" + site + page;
  }

  /** Neither piece of the example holds a '!' or a '-'. */
  lemma PlainText(site: string, page: string)
    requires site == "\"http://www.w3.org/2000/svg\">" && page == "\n<html><body></body></html>"
    ensures '!' !in site + page && '-' !in site + page
  {
    assert '!' !in site && '-' !in site;
    assert '!' !in page && '-' !in page;
  }
}
