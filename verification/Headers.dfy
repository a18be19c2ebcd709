/** Header values are bytes; the code reads them as text only when they are visible ASCII. */
module Headers {
  import opened Basics

  type HeaderValue = Bytes

  predicate VisibleByte(b: byte) { 0x20 <= b < 0x7F || b == 0x09 }

  predicate Visible(v: HeaderValue) {
    forall i :: 0 <= i < |v| ==> VisibleByte(v[i])
  }

  /** `HeaderValue::to_str`: one byte outside visible ASCII and there is no text at all. */
  function ToStr(v: HeaderValue): Option<string> {
    if Visible(v) then Some(seq(|v|, i requires 0 <= i < |v| => v[i] as char)) else None
  }

  /** Exactly the bytes 32 to 126 and the tab are text, and each is its own character. */
  lemma TextIff(v: HeaderValue)
    ensures ToStr(v).Some? <==> forall i :: 0 <= i < |v| ==> 32 <= v[i] <= 126 || v[i] == 9
    ensures ToStr(v).Some? ==> |ToStr(v).value| == |v|
    ensures ToStr(v).Some? ==> forall i :: 0 <= i < |v| ==> ToStr(v).value[i] as int == v[i] as int
  {
  }

  predicate VisibleText(s: string) {
    forall i :: 0 <= i < |s| ==> s[i] as int < 0x80 && VisibleByte(s[i] as byte)
  }

  /** The bytes a visible text is sent as. */
  function ToBytes(s: string): HeaderValue
    requires VisibleText(s)
  {
    seq(|s|, i requires 0 <= i < |s| => s[i] as byte)
  }

  lemma TextReadsBack(s: string)
    requires VisibleText(s)
    ensures ToStr(ToBytes(s)) == Some(s)
  {
    assert ToStr(ToBytes(s)).value == s;
  }

  lemma VisibleAppend(a: HeaderValue, b: HeaderValue)
    ensures Visible(a + b) <==> Visible(a) && Visible(b)
    ensures Visible(a + b) ==> ToStr(a + b).value == ToStr(a).value + ToStr(b).value
  {
    if Visible(a + b) {
      assert forall i :: 0 <= i < |a| ==> (a + b)[i] == a[i];
      assert forall i :: 0 <= i < |b| ==> (a + b)[|a| + i] == b[i];
    }
  }
}
