/** Virtual-key codes and one tick's view of the keyboard. A tick reads the
    keyboard once: `down` is the set of codes whose GetAsyncKeyState high bit
    is set at that moment. */
module Keys {

  const VkControl := 0x11
  const VkLControl := 0xA2
  const VkRControl := 0xA3

  /** The three codes the scans skip: either Ctrl key and the generic one. */
  predicate IsCtrlCode(vk: int) {
    vk == VkControl || vk == VkLControl || vk == VkRControl
  }

  /** Ctrl is down when the generic VK_CONTROL code is. */
  predicate CtrlDown(down: set<int>) {
    VkControl in down
  }

  /** g_preExisting after the press tick: cleared, then set for every code
      1..255 that is down (entry 0 is never set). */
  function Snapshot(down: set<int>): (s: seq<bool>)
    ensures |s| == 256 && !s[0]
    ensures forall vk :: 1 <= vk < 256 ==> (s[vk] <==> vk in down)
  {
    seq(256, vk => 1 <= vk && vk in down)
  }

  /** Some code in 1..255 other than the Ctrl codes is down and was not down
      when Ctrl was pressed: the test of the combo scan and of
      AnyNewKeyPressed. */
  predicate NewKeyDown(pre: seq<bool>, down: set<int>)
    requires |pre| == 256
  {
    exists vk :: 1 <= vk < 256 && !IsCtrlCode(vk) && !pre[vk] && vk in down
  }

  /** AnyNewKeyPressed (and the combo scan of the main loop, which is the
      same loop): scans codes 1..255, skipping the Ctrl codes and the
      pre-existing keys, and stops at the first key that is down. */
  method AnyNewKeyPressed(pre: array<bool>, down: set<int>) returns (found: bool)
    requires pre.Length == 256
    ensures found == NewKeyDown(pre[..], down)
  {
    for vk := 1 to 256
      invariant forall k :: 1 <= k < vk ==> IsCtrlCode(k) || pre[k] || k !in down
    {
      if IsCtrlCode(vk) {
        continue;
      }
      if pre[vk] {
        continue;
      }
      if vk in down {
        assert pre[..][vk] == pre[vk];
        return true;
      }
    }
    return false;
  }

  // ---------------------------------------------------------------------
  // Which keys can disqualify

  /** Keys held when Ctrl went down never count as new. */
  lemma SnapshotExempt(down: set<int>, later: set<int>)
    requires later <= down
    ensures !NewKeyDown(Snapshot(down), later)
  {
  }

  /** The Ctrl codes, code 0 and codes outside 1..255 never count: adding or
      removing them changes nothing. */
  lemma OnlyOrdinaryCodesCount(pre: seq<bool>, down: set<int>, extra: set<int>)
    requires |pre| == 256
    requires forall vk :: vk in extra ==> IsCtrlCode(vk) || vk < 1 || vk >= 256
    ensures NewKeyDown(pre, down + extra) == NewKeyDown(pre, down)
    ensures NewKeyDown(pre, down - extra) == NewKeyDown(pre, down)
  {
    if NewKeyDown(pre, down + extra) {
      var vk :| 1 <= vk < 256 && !IsCtrlCode(vk) && !pre[vk] && vk in down + extra;
      assert vk in down - extra;
    }
  }

  /** An ordinary key that was not held at the press is new. */
  lemma FreshKeyCounts(pre: seq<bool>, down: set<int>, vk: int)
    requires |pre| == 256 && 1 <= vk < 256 && !IsCtrlCode(vk) && !pre[vk] && vk in down
    ensures NewKeyDown(pre, down)
  {
  }
}
