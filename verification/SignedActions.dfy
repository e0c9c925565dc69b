/** The text of a queued action that terminal and service sign and check. */
module SignedActions {
  import opened Bytes
  import opened OutboxFormat
  import AlteredRows
  import DeviceController
  import HashChain
  import Texts

  /** The commands in the order of the terminal's enumerator. */
  function CommandName(command: byte): string {
    match command
    case 0 => "clock_in"
    case 1 => "break_start"
    case 2 => "break_end"
    case 3 => "clock_out"
    case _ => ""
  }

  function SignedParts(terminal: string, a: Action): seq<string> {
    [ terminal, DeviceController.Text(a.clientRequestId), DeviceController.Text(a.uid), CommandName(a.command),
      DeviceController.Text(a.deviceCapturedAt), DeviceController.Text(a.appliedAt),
      DeviceController.Text(a.clockSyncedAt), HashChain.Decimal(a.deviceSequence), DeviceController.Text(a.rebootId),
      DeviceController.Text(a.previousLocalHash) ]
  }

  /** `canonicalAction` of the terminal and `canonicalQueuedAction` of the service. */
  function SignedText(terminal: string, a: Action): string {
    Texts.Join('|', SignedParts(terminal, a))
  }

  lemma {:induction false} NoBarInText(s: Bytes)
    requires forall i :: 0 <= i < |s| ==> TextByte(s[i])
    ensures '|' !in DeviceController.Text(s)
  {
    var text := DeviceController.Text(s);
    forall i | 0 <= i < |text| ensures text[i] != '|' {
      assert text[i] == s[i] as char;
    }
  }

  lemma {:induction false} NoBarInHex(s: Bytes)
    requires forall i :: 0 <= i < |s| ==> 48 <= s[i] <= 57 || 65 <= s[i] <= 70 || 97 <= s[i] <= 102
    ensures '|' !in DeviceController.Text(s)
  {
    NoBarInText(s);
  }

  lemma {:induction false} PartsArePlain(terminal: string, a: Action)
    requires ValidAction(a) && '|' !in terminal
    ensures Texts.Plain('|', SignedParts(terminal, a))
  {
    hide HashChain.Decimal, DeviceController.Text;
    NoBarInText(a.clientRequestId);
    NoBarInHex(a.uid);
    NoBarInText(a.deviceCapturedAt);
    NoBarInText(a.appliedAt);
    NoBarInText(a.clockSyncedAt);
    AlteredRows.NoBarInDecimal(a.deviceSequence);
    NoBarInText(a.rebootId);
    NoBarInHex(a.previousLocalHash);
  }

  /** No two actions a terminal can journal have the same signed text: it says which
      terminal, and every field but the signature. */
  lemma {:induction false} SignedTextDetermines(terminal: string, a: Action, other: string, b: Action)
    requires ValidAction(a) && ValidAction(b) && '|' !in terminal && '|' !in other
    ensures SignedText(terminal, a) == SignedText(other, b)
      <==> terminal == other && a.(signature := []) == b.(signature := [])
  {
    hide HashChain.Decimal, DeviceController.Text, ValidText, ValidUpperHex, ValidLowerHex;
    if SignedText(terminal, a) == SignedText(other, b) {
      PartsArePlain(terminal, a);
      PartsArePlain(other, b);
      Texts.JoinDetermines('|', SignedParts(terminal, a), SignedParts(other, b));
      SameFields(terminal, a, other, b);
    }
  }

  lemma {:induction false} SameFields(terminal: string, a: Action, other: string, b: Action)
    requires a.command <= 3 && b.command <= 3 && SignedParts(terminal, a) == SignedParts(other, b)
    ensures terminal == other && a.(signature := []) == b.(signature := [])
  {
    hide HashChain.Decimal, DeviceController.Text;
    var p, q := SignedParts(terminal, a), SignedParts(other, b);
    assert p[0] == q[0] && p[1] == q[1] && p[2] == q[2] && p[3] == q[3] && p[4] == q[4];
    assert p[5] == q[5] && p[6] == q[6] && p[7] == q[7] && p[8] == q[8] && p[9] == q[9];
    DeviceController.TextIsInjective(a.clientRequestId, b.clientRequestId);
    DeviceController.TextIsInjective(a.uid, b.uid);
    assert a.command == b.command by { NamesDiffer(a.command, b.command); }
    DeviceController.TextIsInjective(a.deviceCapturedAt, b.deviceCapturedAt);
    DeviceController.TextIsInjective(a.appliedAt, b.appliedAt);
    DeviceController.TextIsInjective(a.clockSyncedAt, b.clockSyncedAt);
    AlteredRows.DecimalDetermines(a.deviceSequence, b.deviceSequence);
    DeviceController.TextIsInjective(a.rebootId, b.rebootId);
    DeviceController.TextIsInjective(a.previousLocalHash, b.previousLocalHash);
  }

  lemma {:induction false} NamesDiffer(a: byte, b: byte)
    requires a <= 3 && b <= 3
    ensures CommandName(a) == CommandName(b) <==> a == b
  {
    assert |CommandName(0)| == 8 && |CommandName(1)| == 11 && |CommandName(2)| == 9 && |CommandName(3)| == 9;
    assert CommandName(2)[0] == 'b' && CommandName(3)[0] == 'c';
  }

  ghost predicate CollisionFree(mac: string -> Bytes) {
    forall x, y :: mac(x) == mac(y) ==> x == y
  }

  /** An action that carries the signature of a journalled one is that action, or its
      signature does not verify: with a code that no two texts share, nothing journalled
      can be altered on its way. */
  lemma {:induction false} OnlyWhatWasSignedVerifies(mac: string -> Bytes, terminal: string, a: Action, b: Action)
    requires CollisionFree(mac) && ValidAction(a) && ValidAction(b) && '|' !in terminal
    requires a.signature == mac(SignedText(terminal, a)) && b.signature == a.signature
    ensures b.signature == mac(SignedText(terminal, b)) <==> b == a
  {
    hide ValidAction, SignedText;
    SignedTextDetermines(terminal, a, terminal, b);
  }

  /** What the terminal makes of a press verifies. */
  lemma {:induction false} PressVerifies(s: DeviceController.Setting, mac: string -> Bytes, terminal: string,
                                         press: DeviceController.Press, rebootId: Bytes, sequence: nat,
                                         lastLocalHash: Bytes, a: Action)
    requires forall x :: s.sign(x) == mac(SignedText(terminal, x))
    requires DeviceController.IsPressed(s, press, rebootId, sequence, lastLocalHash, a)
    ensures a.signature == mac(SignedText(terminal, a))
  {
    hide HashChain.Decimal, DeviceController.Text;
    assert SignedParts(terminal, a.(signature := [])) == SignedParts(terminal, a);
  }
}
