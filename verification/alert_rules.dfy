/**
  The per-log alert rules of the SIEM dashboard. Given the id of a freshly
  stored log row and the row itself, `Alerts` is the sequence of alert rows
  the rules insert, in insertion order:

  - `critical_sev` when the severity, lower-cased, is `critical`;
  - `port_scan` when the event type, lower-cased, contains `scan`.

  Columns may be NULL, so the three fields the rules read are optional; an
  empty string counts as absent, as Python's truthiness test does.
 */
module AlertRules {
  import opened Wrappers
  import opened AsciiText

  /** The columns of a log row that the rules read. */
  datatype LogRow = LogRow(severity: Option<string>, eventType: Option<string>, srcIp: Option<string>)

  datatype Rule = CriticalSev | PortScan
  {
    /** The value stored in the `rule` column. */
    function Name(): (name: string)
      ensures this == CriticalSev <==> name == "critical_sev"
      ensures this == PortScan <==> name == "port_scan"
    {
      match this
      case CriticalSev => "critical_sev"
      case PortScan => "port_scan"
    }
  }

  /** An alert row; `created_at` is a wall-clock reading and is not modelled. */
  datatype Alert = Alert(logId: int, rule: Rule, severity: string, message: string)

  /** Python truthiness of a text column: NULL (`None`) and the empty
      string are false, every other string is true. */
  function Truthy(field: Option<string>): (b: bool)
    ensures !b <==> field == None || field == Some("")
  {
    field.Some? && |field.value| > 0
  }

  /** How a Python f-string renders a text column: a string is inserted as
      it is, NULL becomes the four letters `None`. */
  function Show(field: Option<string>): (text: string)
    ensures field.Some? ==> text == field.value
    ensures field.None? ==> text == "None"
  {
    match field
    case None => "None"
    case Some(s) => s
  }

  /** The trigger of the `critical_sev` rule, as app.py writes it; its
      meaning is stated by `CriticalFiresIff`. */
  function CriticalFires(row: LogRow): (fires: bool)
    ensures fires ==> row.severity.Some? && |row.severity.value| == |"critical"|
  {
    Truthy(row.severity) && Lower(row.severity.value) == "critical"
  }

  /** The trigger of the `port_scan` rule, as app.py writes it; its
      meaning is stated by `ScanFiresIff`. */
  function ScanFires(row: LogRow): (fires: bool)
    ensures fires ==> row.eventType.Some? && |row.eventType.value| >= |"scan"|
  {
    Truthy(row.eventType) && Contains(Lower(row.eventType.value), "scan")
  }

  /** The row the `critical_sev` rule inserts. */
  function CriticalAlert(logId: int, row: LogRow): (a: Alert)
    ensures a.logId == logId && a.rule.Name() == "critical_sev" && a.severity == "Critical"
    ensures a.message == "Critical event: " + Show(row.eventType) + " from " + Show(row.srcIp)
  {
    Alert(logId, CriticalSev, "Critical",
          "Critical event: " + Show(row.eventType) + " from " + Show(row.srcIp))
  }

  /** The row the `port_scan` rule inserts. */
  function ScanAlert(logId: int, row: LogRow): (a: Alert)
    ensures a.logId == logId && a.rule.Name() == "port_scan" && a.severity == "High"
    ensures a.message == "Port scan detected from " + Show(row.srcIp)
  {
    Alert(logId, PortScan, "High", "Port scan detected from " + Show(row.srcIp))
  }

  /** The alerts `generate_alerts_for_log` inserts for one log row, in order. */
  function Alerts(logId: int, row: LogRow): (r: seq<Alert>)
    ensures |r| <= 2
    ensures forall a <- r :: a.logId == logId
    ensures |r| == 2 ==> r[0].rule == CriticalSev && r[1].rule == PortScan
  {
    (if CriticalFires(row) then [CriticalAlert(logId, row)] else [])
    + (if ScanFires(row) then [ScanAlert(logId, row)] else [])
  }

  /** The number of alerts in `alerts` raised by `rule`. */
  function CountRule(alerts: seq<Alert>, rule: Rule): (n: nat)
    ensures n <= |alerts|
    ensures n == 0 <==> forall a <- alerts :: a.rule != rule
  {
    if alerts == [] then 0
    else (if alerts[0].rule == rule then 1 else 0) + CountRule(alerts[1..], rule)
  }

  /** Reference definition of the `critical_sev` trigger: the severity is
      present and spells `critical` in some mix of cases. */
  ghost predicate IsCritical(row: LogRow)
  {
    row.severity.Some? && EqualIgnoringCase(row.severity.value, "critical")
  }

  /** Reference definition of the `port_scan` trigger: the event type is
      present and has four consecutive characters spelling `scan` in some
      mix of cases. */
  ghost predicate MentionsScan(row: LogRow)
  {
    row.eventType.Some? && exists i :: OccursIgnoringCaseAt("scan", row.eventType.value, i)
  }

  lemma CriticalFiresIff(row: LogRow)
    ensures CriticalFires(row) <==> IsCritical(row)
  {
    if row.severity.Some? {
      LowerEqualIff(row.severity.value, "critical");
      assert Lower("critical") == "critical";
    }
  }

  lemma ScanFiresIff(row: LogRow)
    ensures ScanFires(row) <==> MentionsScan(row)
  {
    if row.eventType.Some? {
      var e := row.eventType.value;
      assert Lower("scan") == "scan";
      if MentionsScan(row) {
        var i :| OccursIgnoringCaseAt("scan", e, i);
        OccursLowerIff("scan", e, i);
      }
      if ScanFires(row) {
        var i :| OccursAt("scan", Lower(e), i);
        OccursLowerIff("scan", e, i);
      }
    }
  }

  /** A log whose severity is `critical` in any case yields exactly one
      `critical_sev` alert, for that log, with severity `Critical` and the
      message naming the event type and source address; any other log yields
      none. */
  lemma CriticalRuleSpec(logId: int, row: LogRow)
    ensures CountRule(Alerts(logId, row), CriticalSev) == (if IsCritical(row) then 1 else 0)
    ensures forall a <- Alerts(logId, row) :: a.rule == CriticalSev ==>
              a.rule.Name() == "critical_sev" &&
              a == Alert(logId, CriticalSev, "Critical",
                         "Critical event: " + Show(row.eventType) + " from " + Show(row.srcIp))
  {
    CriticalFiresIff(row);
    var r := Alerts(logId, row);
    if CriticalFires(row) && ScanFires(row) {
      assert r[1..][1..] == [];
    } else if CriticalFires(row) || ScanFires(row) {
      assert r[1..] == [];
    }
  }

  /** A log whose event type contains `scan` in any case yields exactly one
      `port_scan` alert, for that log, with severity `High` and the message
      naming the source address; any other log yields none. */
  lemma ScanRuleSpec(logId: int, row: LogRow)
    ensures CountRule(Alerts(logId, row), PortScan) == (if MentionsScan(row) then 1 else 0)
    ensures forall a <- Alerts(logId, row) :: a.rule == PortScan ==>
              a.rule.Name() == "port_scan" &&
              a == Alert(logId, PortScan, "High", "Port scan detected from " + Show(row.srcIp))
  {
    ScanFiresIff(row);
    var r := Alerts(logId, row);
    if CriticalFires(row) && ScanFires(row) {
      assert r[1..][1..] == [];
    } else if CriticalFires(row) || ScanFires(row) {
      assert r[1..] == [];
    }
  }

  /** The rules are independent: whether `critical_sev` fires depends on the
      severity alone, whether `port_scan` fires on the event type alone. */
  lemma RulesIndependent(logId: int, row1: LogRow, row2: LogRow)
    ensures row1.severity == row2.severity ==>
              CountRule(Alerts(logId, row1), CriticalSev) == CountRule(Alerts(logId, row2), CriticalSev)
    ensures row1.eventType == row2.eventType ==>
              CountRule(Alerts(logId, row1), PortScan) == CountRule(Alerts(logId, row2), PortScan)
  {
    CriticalRuleSpec(logId, row1);
    CriticalRuleSpec(logId, row2);
    ScanRuleSpec(logId, row1);
    ScanRuleSpec(logId, row2);
  }

  /** When both rules fire, the `critical_sev` alert precedes the `port_scan`
      alert and nothing else is emitted. */
  lemma BothRulesOrdered(logId: int, row: LogRow)
    requires IsCritical(row) && MentionsScan(row)
    ensures |Alerts(logId, row)| == 2
    ensures Alerts(logId, row)[0].rule == CriticalSev && Alerts(logId, row)[1].rule == PortScan
  {
    CriticalFiresIff(row);
    ScanFiresIff(row);
  }

  /** A text with no `s` in either case cannot mention `scan`. */
  lemma NoScanWithoutLetterS(row: LogRow)
    requires row.eventType.Some?
    requires forall j :: 0 <= j < |row.eventType.value| ==> ToLower(row.eventType.value[j]) != 's'
    ensures !MentionsScan(row)
  {
    var e := row.eventType.value;
    forall i | 0 <= i && i + 4 <= |e| ensures !OccursIgnoringCaseAt("scan", e, i) {
      assert e[i..i + 4][0] == e[i];
      assert ToLower(e[i..i + 4][0]) != ToLower("scan"[0]);
    }
  }

  const MalwareRow := LogRow(Some("Critical"), Some("Malware Detected"), Some("192.0.2.45"))

  /** The malware row meets the `critical_sev` trigger only. */
  lemma MalwareRowTriggers()
    ensures CriticalFires(MalwareRow) && !ScanFires(MalwareRow)
  {
    assert EqualIgnoringCase("Critical", "critical");
    CriticalFiresIff(MalwareRow);
    NoScanWithoutLetterS(MalwareRow);
    ScanFiresIff(MalwareRow);
  }

  /** The app.py:117 message for the malware row, spelled out. */
  lemma MalwareMessage()
    ensures "Critical event: " + "Malware Detected" + " from " + "192.0.2.45"
         == "Critical event: Malware Detected from 192.0.2.45"
  {
  }

  /** A critical malware event from a known address raises one alert. */
  lemma CriticalMalwareScenario(logId: int)
    ensures Alerts(logId, MalwareRow)
         == [Alert(logId, CriticalSev, "Critical", "Critical event: Malware Detected from 192.0.2.45")]
  {
    MalwareRowTriggers();
    MalwareMessage();
    assert CriticalAlert(logId, MalwareRow).message == "Critical event: Malware Detected from 192.0.2.45";
  }

  /** A medium-severity failed login raises neither rule's alert. */
  lemma FailedLoginScenario(logId: int)
    ensures Alerts(logId, LogRow(Some("Medium"), Some("Failed Login"), Some("198.51.100.10"))) == []
  {
    var row := LogRow(Some("Medium"), Some("Failed Login"), Some("198.51.100.10"));
    CriticalFiresIff(row);
    NoScanWithoutLetterS(row);
    ScanFiresIff(row);
  }

  /** A NULL source address is rendered as `None` in the message. */
  lemma ScanWithoutSourceScenario(logId: int)
    ensures Alerts(logId, LogRow(None, Some("Port Scan"), None))
         == [Alert(logId, PortScan, "High", "Port scan detected from None")]
  {
    var row := LogRow(None, Some("Port Scan"), None);
    var e := row.eventType.value;
    assert EqualIgnoringCase(e[5..9], "scan");
    assert OccursIgnoringCaseAt("scan", e, 5);
    ScanFiresIff(row);
    assert !CriticalFires(row);
    assert ScanAlert(logId, row) == Alert(logId, PortScan, "High", "Port scan detected from None");
    assert Alerts(logId, row) == [ScanAlert(logId, row)];
  }

}
