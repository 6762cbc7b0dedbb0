/**
 * The mode switches of `keyPressEvent` in maze/MazeApp.cpp: Escape asks to
 * exit, P and O toggle the two occlusion cullers (switching the other one
 * off), F toggles frustum culling, G leaves the debug view, Plus and Minus
 * step the debug level within [0, 10], and the digit keys pick a level
 * directly (0 standing for 10).  Key codes are Qt's.
 */
module Keys {

  const KeyEscape: int := 0x01000000
  const KeyP: int := 0x50
  const KeyO: int := 0x4f
  const KeyF: int := 0x46
  const KeyG: int := 0x47
  const KeyPlus: int := 0x2b
  const KeyMinus: int := 0x2d
  const Key0: int := 0x30
  const Key9: int := 0x39

  /** The flags and the debug level `keyPressEvent` changes (maze/MazeApp.hpp). */
  datatype Modes = Modes(
    wantExit: bool,
    frustumCulling: bool,
    occlusionCullingCHC: bool,
    occlusionCulling: bool,
    chcDebug: bool,
    debugLevel: int)

  /** The modes of a freshly made application: everything off, debug level 0. */
  function InitialModes(): Modes
  {
    Modes(false, false, false, false, false, 0)
  }

  /** The two occlusion cullers are never on together and the debug level stays within [0, 10]. */
  predicate ModesInv(m: Modes)
  {
    !(m.occlusionCulling && m.occlusionCullingCHC) && 0 <= m.debugLevel <= 10
  }

  /** The keys after which every node of the kd-tree is marked visible again. */
  predicate ResetsVisibility(key: int)
  {
    key == KeyP || key == KeyO || key == KeyF
  }

  /** The modes after one key press: the `switch` on the key, then the two digit checks. */
  function KeyStep(m: Modes, key: int): (r: Modes)
    ensures ModesInv(m) ==> ModesInv(r)
    ensures key == KeyP ==> r.occlusionCullingCHC == !m.occlusionCullingCHC && !r.occlusionCulling
    ensures key == KeyO ==> r.occlusionCulling == !m.occlusionCulling && !r.occlusionCullingCHC
    ensures Key0 < key <= Key9 ==> r.debugLevel == key - Key0 && r.chcDebug
    ensures key == Key0 ==> r.debugLevel == 10 && r.chcDebug
  {
    var s :=
      if key == KeyEscape then m.(wantExit := true)
      else if key == KeyP then
        m.(occlusionCulling := if m.occlusionCulling then false else m.occlusionCulling,
           occlusionCullingCHC := !m.occlusionCullingCHC)
      else if key == KeyO then
        m.(occlusionCullingCHC := if m.occlusionCullingCHC then false else m.occlusionCullingCHC,
           occlusionCulling := !m.occlusionCulling)
      else if key == KeyF then m.(frustumCulling := !m.frustumCulling)
      else if key == KeyG then m.(chcDebug := false)
      else if key == KeyPlus then
        m.(debugLevel := if m.debugLevel + 1 > 10 then 10 else m.debugLevel + 1, chcDebug := true)
      else if key == KeyMinus then
        m.(debugLevel := if m.debugLevel - 1 < 0 then 0 else m.debugLevel - 1, chcDebug := true)
      else m;
    var t := if Key0 < key <= Key9 then s.(debugLevel := key - Key0, chcDebug := true) else s;
    if key == Key0 then t.(debugLevel := 10, chcDebug := true) else t
  }

  /** The modes after a sequence of key presses. */
  function Run(m: Modes, keys: seq<int>): Modes
    decreases |keys|
  {
    if keys == [] then m else Run(KeyStep(m, keys[0]), keys[1..])
  }

  /** Whatever keys are pressed, the two occlusion cullers are never on together and the debug level stays within [0, 10]. */
  lemma {:induction false} RunKeepsModesInv(m: Modes, keys: seq<int>)
    requires ModesInv(m)
    ensures ModesInv(Run(m, keys))
    decreases |keys|
  {
    if keys != [] {
      RunKeepsModesInv(KeyStep(m, keys[0]), keys[1..]);
    }
  }

  /** The invariant holds from the start of the application on. */
  lemma ModesInvFromStart(keys: seq<int>)
    ensures ModesInv(Run(InitialModes(), keys))
  {
    RunKeepsModesInv(InitialModes(), keys);
  }

  /** Toggling the same culler twice restores the culling flags, provided the invariant held. */
  lemma ToggleTwice(m: Modes, key: int)
    requires ModesInv(m) && (key == KeyP || key == KeyO || key == KeyF)
    ensures var r := KeyStep(KeyStep(m, key), key);
      r.frustumCulling == m.frustumCulling &&
      (key == KeyF ==> r.occlusionCulling == m.occlusionCulling && r.occlusionCullingCHC == m.occlusionCullingCHC) &&
      (key == KeyP ==> r.occlusionCullingCHC == m.occlusionCullingCHC && !r.occlusionCulling) &&
      (key == KeyO ==> r.occlusionCulling == m.occlusionCulling && !r.occlusionCullingCHC)
  {
  }
}
