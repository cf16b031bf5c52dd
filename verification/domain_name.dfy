/**
 * Domain names as the `domain` crate's `Dname` holds them: a sequence of
 * labels, leftmost first, with the root label implicit (the root name is
 * the empty sequence).
 */
module DomainName {

  import opened Wrappers
  import opened Text

  type Label = string
  type Name = seq<Label>

  /** The longest a label may be, in octets. */
  const MaxLabelLen := 63
  /** The longest a name may be in wire form, root label included. */
  const MaxNameLen := 255

  /** Length of the wire form: a length octet and the octets of every label, then the root octet. */
  function WireLen(n: Name): (len: nat)
    ensures len >= 1
  {
    if n == [] then 1 else |n[0]| + 1 + WireLen(n[1..])
  }

  predicate ValidLabel(l: Label)
  {
    1 <= |l| <= MaxLabelLen
  }

  predicate ValidName(n: Name)
  {
    (forall i :: 0 <= i < |n| ==> ValidLabel(n[i])) && WireLen(n) <= MaxNameLen
  }

  /** `Dname::parent`: the name without its leftmost label; the root has none. */
  function Parent(n: Name): (p: Option<Name>)
    ensures p.Some? <==> n != []
    ensures p.Some? ==> n == [n[0]] + p.value
  {
    if n == [] then None else Some(n[1..])
  }

  lemma WireLenSuffix(n: Name, k: nat)
    requires k <= |n|
    ensures WireLen(n[k..]) <= WireLen(n)
  {
    if k > 0 {
      WireLenSuffix(n[1..], k - 1);
      assert n[1..][k - 1..] == n[k..];
    }
  }

  lemma WireLenConcat(a: Name, b: Name)
    ensures WireLen(a + b) == WireLen(a) + WireLen(b) - 1
  {
    if a != [] {
      WireLenConcat(a[1..], b);
      assert (a + b)[1..] == a[1..] + b;
    } else {
      assert a + b == b;
    }
  }

  /** `d` is a label-aligned suffix of `n` (`n` itself and the root included). */
  predicate IsLabelSuffix(d: Name, n: Name)
  {
    |d| <= |n| && n[|n| - |d|..] == d
  }

  /** `name.to_string()`: the labels joined by dots, without a trailing dot; the root prints as ".". */
  function ToText(n: Name): string
  {
    if n == [] then "." else Join(n, '.')
  }

  /**
   * `Dname::vec_from_str`, simplified: "." is the root; otherwise the text
   * is split on dots, one trailing empty piece (the absolute form) is
   * dropped, and every label must be 1 to 63 characters with the whole name
   * at most 255 octets in wire form.
   */
  function ParseName(s: string): (r: Option<Name>)
    ensures r.Some? ==> ValidName(r.value)
  {
    if s == "." then Some([])
    else
      var parts := Split(s, '.');
      var labels := if |parts| > 1 && parts[|parts| - 1] == "" then parts[..|parts| - 1] else parts;
      if ValidName(labels) then Some(labels) else None
  }

  /**
   * A pattern's text is the `to_string()` form of the name it parses to
   * exactly when it does not end in a dot, the root "." aside: `foo.com.`
   * parses to the same name as `foo.com` but prints without the dot.
   */
  lemma ParseNameKeyText(s: string)
    requires ParseName(s).Some?
    ensures ToText(ParseName(s).value) == s <==> (s == "." || (|s| > 0 && s[|s| - 1] != '.'))
  {
    if s != "." {
      var parts := Split(s, '.');
      if |parts| > 1 && parts[|parts| - 1] == "" {
        TrailingDotText(s);
      } else {
        assert ValidLabel(parts[|parts| - 1]);
        PlainText(s);
      }
    }
  }

  /** Text ending in a dot is one character longer than its pieces before the last, joined. */
  lemma TrailingDotText(s: string)
    requires var parts := Split(s, '.'); |parts| > 1 && parts[|parts| - 1] == ""
    ensures var parts := Split(s, '.');
            Join(parts[..|parts| - 1], '.') != s && |s| > 0 && s[|s| - 1] == '.'
  {
    var parts := Split(s, '.');
    var labels := parts[..|parts| - 1];
    JoinSplit(s, '.');
    assert parts == labels + [""];
    JoinSnoc(labels, "", '.');
  }

  /** Text whose last piece is not empty is its pieces joined, and does not end in a dot. */
  lemma PlainText(s: string)
    requires var parts := Split(s, '.'); parts[|parts| - 1] != ""
    ensures Join(Split(s, '.'), '.') == s && |s| > 0 && s[|s| - 1] != '.'
  {
    var parts := Split(s, '.');
    var last := parts[|parts| - 1];
    JoinSplit(s, '.');
    if |parts| > 1 {
      assert parts == parts[..|parts| - 1] + [last];
      JoinSnoc(parts[..|parts| - 1], last, '.');
    }
    assert s[|s| - 1] == last[|last| - 1];
  }

  /** A valid name without dots inside its labels survives printing and parsing. */
  lemma ParseNameToText(n: Name)
    requires ValidName(n) && NoSeparator(n, '.')
    ensures ParseName(ToText(n)) == Some(n)
  {
    if n == [] { return; }
    SplitJoin(n, '.');
    assert n[|n| - 1] != "";
  }
}
