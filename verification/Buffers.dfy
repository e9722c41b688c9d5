/** The byte buffer of buf.c, filled at its end and emptied at its front. */
module Buffers {
  import opened Text

  class Buf {
    const size: nat
    const data: array<char>
    var used: nat

    /** The cell after the contents holds the terminator. */
    ghost predicate Valid()
      reads this, data
    {
      data.Length == size + 1 && used <= size && (used > 0 ==> data[used] == '\0')
    }

    ghost function Contents(): string
      reads this, data
      requires Valid()
    {
      data[..used]
    }

    constructor (size: nat)
      requires size > 0
      ensures Valid() && fresh(data) && this.size == size && Contents() == ""
    {
      this.size := size;
      data := new char[size + 1];
      used := 0;
    }

    /** memcpy into the data from the given place on. */
    method Copy(at: nat, text: string)
      requires at + |text| <= data.Length
      modifies data
      ensures data[..at] == old(data[..at]) && data[at..at + |text|] == text
    {
      forall i | 0 <= i < |text| { data[at + i] := text[i]; }
    }

    /** Append len characters, or the whole C string if len is 0; what does not fit is dropped. */
    method Append(str: string, len: nat) returns (n: nat)
      requires Valid() && len <= |str|
      modifies this, data
      ensures Valid()
      ensures var text := if len == 0 then CString(str) else str[..len];
              n == Min(|text|, size - old(used)) && Contents() == old(Contents()) + text[..n]
    {
      hide CString;
      var text := if len == 0 then CString(str) else str[..len];
      n := |text|;
      if used + n > size {
        n := size - used;
      }
      ghost var before := Contents();
      Copy(used, text[..n]);
      assert data[..used + n] == before + text[..n];
      used := used + n;
      data[used] := '\0';
      assert data[..used] == before + text[..n];
    }

    /** Drop len characters from the front by moving the rest down. */
    method Splice(len: nat) returns (n: nat)
      requires Valid()
      modifies this, data
      ensures Valid()
      ensures n == Min(len, old(used)) && Contents() == old(Contents())[n..]
    {
      n := len;
      if n == 0 {
        return;
      }
      if used <= n {
        n := used;
      }
      used := used - n;
      var i := 0;
      while i < used
        invariant i <= used == old(used) - n && data.Length == size + 1
        invariant forall k :: 0 <= k < i ==> data[k] == old(data[n + k])
        invariant forall k :: i <= k < old(used) ==> data[k] == old(data[k])
      {
        data[i] := data[n + i];
        i := i + 1;
      }
      data[used] := '\0';
    }

    /** Take out the text in front of the first delimiter, and the delimiter. */
    method Extract(end: char) returns (line: Option<string>)
      requires Valid() && end != '\0'
      modifies this, data
      ensures Valid()
      ensures match Find(old(Contents()), end)
              case None => line == None && Contents() == old(Contents())
              case Some(k) => line == Some(old(Contents())[..k]) && Contents() == old(Contents())[k + 1..]
    {
      if used == 0 {
        return None;
      }
      var k := 0;
      while data[k] != '\0' && data[k] != end
        invariant k <= used
        invariant forall i :: 0 <= i < k ==> data[i] != '\0' && data[i] != end
        decreases used - k
      {
        k := k + 1;
      }
      ghost var s := Contents();
      FindFrom(s, end, k);
      if k < used { assert s[k..][0] == data[k]; }
      if data[k] != end {
        return None;
      }
      line := Some(data[..k]);
      assert data[..k] == s[..k];
      var _ := Splice(k + 1);
    }
  }
}
