/**
 The host-target interface: a hart's device requests and console output against a polling
 host, as a system of steps over the two registers and the queues on both sides.
*/
module Htif {

  import opened Machine

  type Key = (int, int)

  // ---- words ----

  function TohostCmd(dev: int, cmd: int, payload: int): Word
    requires 0 <= dev < 256 && 0 <= cmd < 256 && 0 <= payload < 0x1_0000_0000_0000
  {
    dev * 0x100_0000_0000_0000 + cmd * 0x1_0000_0000_0000 + payload
  }

  function WordDev(w: Word): int { w / 0x100_0000_0000_0000 }
  function WordCmd(w: Word): int { w / 0x1_0000_0000_0000 % 256 }
  function WordData(w: Word): int { w % 0x1_0000_0000_0000 }
  function WordKey(w: Word): Key { (WordDev(w), WordCmd(w)) }

  /** The host's answer keeps the device and command of the word it answers. */
  function Respond(tohost: Word, resp: Word): Word {
    tohost / 0x1_0000_0000_0000 * 0x1_0000_0000_0000 + resp % 0x1_0000_0000_0000
  }

  lemma PackUnpack(dev: int, cmd: int, payload: int)
    requires 0 <= dev < 256 && 0 <= cmd < 256 && 0 <= payload < 0x1_0000_0000_0000
    ensures var w := TohostCmd(dev, cmd, payload); WordDev(w) == dev && WordCmd(w) == cmd && WordData(w) == payload
    ensures TohostCmd(dev, cmd, payload) / 0x100_0000_0000_0000 == dev
    ensures TohostCmd(dev, cmd, payload) / 0x1_0000_0000_0000 % 0x100 == cmd
    ensures TohostCmd(dev, cmd, payload) % 0x1_0000_0000_0000 == payload
  {
    var w := TohostCmd(dev, cmd, payload);
    assert w == (dev * 256 + cmd) * 0x1_0000_0000_0000 + payload;
    assert w / 0x1_0000_0000_0000 == dev * 256 + cmd;
    assert (dev * 256 + cmd) % 256 == cmd;
  }

  lemma UnpackPack(w: Word)
    ensures 0 <= WordDev(w) < 256 && 0 <= WordCmd(w) < 256 && 0 <= WordData(w) < 0x1_0000_0000_0000
    ensures TohostCmd(WordDev(w), WordCmd(w), WordData(w)) == w
  {
    var h := w / 0x1_0000_0000_0000;
    assert h / 256 == w / 0x100_0000_0000_0000;
  }

  lemma RespondKey(tohost: Word, resp: Word)
    ensures WordKey(Respond(tohost, resp)) == WordKey(tohost)
    ensures WordData(Respond(tohost, resp)) == WordData(resp)
    ensures Respond(tohost, resp) / 0x1_0000_0000_0000 == tohost / 0x1_0000_0000_0000
    ensures Respond(tohost, resp) % 0x1_0000_0000_0000 == resp % 0x1_0000_0000_0000
  {
    var h, p := tohost / 0x1_0000_0000_0000, resp % 0x1_0000_0000_0000;
    var r := Respond(tohost, resp);
    assert r / 0x1_0000_0000_0000 == h && r % 0x1_0000_0000_0000 == p;
    HighByte(r);
    HighByte(tohost);
  }

  lemma HighByte(w: Word)
    ensures WordDev(w) == w / 0x1_0000_0000_0000 / 256
  {
  }
}
