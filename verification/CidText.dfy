/** CIDs as text: two ways of printing, one of which the reader accepts. */
module CidText {
  import opened Common
  import Base58
  import Radix

  /**
   * The CID library: which byte strings are CIDs, how it prints those of version 1, and how it
   * reads text.
   */
  datatype Library = Library(isCid: seq<byte> -> bool, printV1: Cid -> string, read: string -> Option<Cid>) {
    /** Version 1 prints in base32, and is read back from it; reading yields nothing but CIDs. */
    ghost predicate Lawful() {
      && (forall c: Cid | isCid(c.bytes) && !IsV0(c) :: IsBase32(printV1(c)) && read(printV1(c)) == Some(c))
      && (forall s | read(s).Some? :: isCid(read(s).value.bytes))
    }
  }

  /** Version 0 is a bare SHA-256 multihash. */
  predicate IsV0(c: Cid) { |c.bytes| == 34 && c.bytes[0] == 0x12 && c.bytes[1] == 0x20 }

  /** The multibase prefix of lower-case base32. */
  predicate IsBase32(s: string) { s != "" && s[0] == 'b' }

  /** Version 0 prints as its multihash in base58btc, without a multibase prefix. */
  function Print(lib: Library, c: Cid): string {
    if IsV0(c) then Base58.Encode(c.bytes) else lib.printV1(c)
  }

  /** Only base32 text is read. */
  function Parse(lib: Library, s: string): Option<Cid> {
    if IsBase32(s) then lib.read(s) else None
  }

  // ---- version 0 never prints in base32 ----

  lemma QmBegins()
    ensures Base58.Text(Radix.Digits(58, 1378)) == "Qm"
  {
    Radix.DigitsOfSum(58, 0, 23);
    Radix.DigitsOfSum(58, 23, 44);
    assert Radix.Digits(58, 1378) == [23, 44];
  }

  /** Every version 0 CID prints as text that begins with `Qm`. */
  lemma V0PrintsQm(lib: Library, c: Cid)
    requires IsV0(c)
    ensures "Qm" <= Print(lib, c)
  {
    var head := [0x12, 0x20];
    assert Radix.Value(256, head) == 0x1220 by {
      Radix.ValueOfAppend(256, [], 0x12);
      Radix.ValueOfAppend(256, [0x12], 0x20);
    }
    assert c.bytes[..2] == head;
    QmBegins();
    Base58.HeadBegins(c.bytes, head, 0x1220, 1378);
  }

  /** What is printed is read back exactly when it is not version 0. */
  lemma PrintedIsRead(lib: Library, c: Cid)
    requires lib.Lawful() && lib.isCid(c.bytes)
    ensures Parse(lib, Print(lib, c)) == if IsV0(c) then None else Some(c)
    ensures IsBase32(Print(lib, c)) <==> !IsV0(c)
  {
    if IsV0(c) {
      V0PrintsQm(lib, c);
    }
  }
}
