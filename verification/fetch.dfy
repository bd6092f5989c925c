/** Which of the archives offered on the download page are fetched: every
    yearly archive, recognised by a link with exactly four digits in it, and
    the newest monthly archive, which is the last link on the page. */
module Fetch {
  import opened Text
  import opened Results

  /** The number of decimal digits in `s`. */
  function DigitCount(s: string): (n: nat)
    ensures n <= |s|
    ensures n == 0 <==> forall i :: 0 <= i < |s| ==> !IsDigit(s[i])
  {
    if |s| == 0 then 0 else (if IsDigit(s[0]) then 1 else 0) + DigitCount(s[1..])
  }

  /** A link is fetched when it has exactly four digits or is the last one. */
  predicate Selected(link: string, last: string) {
    DigitCount(link) == 4 || link == last
  }

  /** The fetched links in page order; a page without links fails, as
      taking the last of no links does. */
  function Selection(links: seq<string>): (r: Option<seq<string>>)
    ensures r.None? <==> |links| == 0
  {
    if |links| == 0 then None else Some(Keep(links, links[|links| - 1]))
  }

  /** The selected links among `links`, in page order: every kept link is
      selected, and when every link is selected all are kept as they
      stand. */
  function Keep(links: seq<string>, last: string): (r: seq<string>)
    ensures |r| <= |links|
    ensures forall k :: 0 <= k < |r| ==> Selected(r[k], last)
    ensures (forall k :: 0 <= k < |links| ==> Selected(links[k], last)) ==> r == links
  {
    if |links| == 0 then []
    else (if Selected(links[0], last) then [links[0]] else []) + Keep(links[1..], last)
  }

  /** Exactly the selected links are kept. */
  lemma {:induction false} KeepSpec(links: seq<string>, last: string)
    ensures forall l :: l in Keep(links, last) <==> l in links && Selected(l, last)
  {
    if |links| > 0 {
      KeepSpec(links[1..], last);
      assert forall l :: l in links <==> l == links[0] || l in links[1..];
    }
  }

  /** Selection keeps page order: the links of two parts of the page are
      kept part by part. */
  lemma {:induction false} KeepAppend(a: seq<string>, b: seq<string>, last: string)
    ensures Keep(a + b, last) == Keep(a, last) + Keep(b, last)
  {
    if |a| > 0 {
      assert (a + b)[0] == a[0] && (a + b)[1..] == a[1..] + b;
      KeepAppend(a[1..], b, last);
    } else {
      assert a + b == b;
    }
  }

  /** The newest archive is always fetched, and nothing but yearly archives
      and the newest one is. */
  lemma SelectionSpec(links: seq<string>)
    requires |links| > 0
    ensures var sel := Selection(links).value;
      && links[|links| - 1] in sel
      && (forall l :: l in sel ==> l in links && (DigitCount(l) == 4 || l == links[|links| - 1]))
      && (forall l :: l in links && DigitCount(l) == 4 ==> l in sel)
  {
    KeepSpec(links, links[|links| - 1]);
  }
}
