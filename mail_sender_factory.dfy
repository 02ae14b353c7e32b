/**
  The cache of mail senders keyed by SMTP account id, evicted when an
  account changes, and the sender configuration derived from an account:
  host, port and user from the account, the decrypted password, and the
  JavaMail properties set from the TLS and SSL flags.
 */
module MailSenderFactory {
  import opened Common
  import opened Entities
  import SAS = SmtpAccountService

  /** A value in a JavaMail Properties table: the text "true" or a number of milliseconds. */
  datatype PropertyValue = Text(text: string) | Millis(millis: int)

  const Auth := "mail.smtp.auth"
  const ConnectionTimeout := "mail.smtp.connectiontimeout"
  const Timeout := "mail.smtp.timeout"
  const WriteTimeout := "mail.smtp.writetimeout"
  const StartTlsEnable := "mail.smtp.starttls.enable"
  const StartTlsRequired := "mail.smtp.starttls.required"
  const SslEnable := "mail.smtp.ssl.enable"

  /** The socket timeouts every cached sender gets. */
  const TimeoutMillis := 5000

  /** A JavaMailSenderImpl as configured; nothing changes it once built. */
  class MailSender {
    const host: string
    const port: int
    const username: string
    const password: string
    const properties: map<string, PropertyValue>

    constructor (host: string, port: int, username: string, password: string, properties: map<string, PropertyValue>)
      ensures this.host == host && this.port == port && this.username == username
      ensures this.password == password && this.properties == properties
    {
      this.host := host;
      this.port := port;
      this.username := username;
      this.password := password;
      this.properties := properties;
    }
  }

  /**
    The properties of a factory-built sender: authentication and the three
    timeouts always; STARTTLS enabled and required exactly when useTls is
    TRUE, SSL exactly when useSsl is TRUE (a null flag sets neither).
   */
  function SenderProperties(useTls: Option<bool>, useSsl: Option<bool>): (p: map<string, PropertyValue>)
    ensures Auth in p && p[Auth] == Text("true")
    ensures ConnectionTimeout in p && Timeout in p && WriteTimeout in p
    ensures p[ConnectionTimeout] == Millis(TimeoutMillis) && p[Timeout] == Millis(TimeoutMillis)
    ensures p[WriteTimeout] == Millis(TimeoutMillis)
    ensures StartTlsEnable in p <==> useTls == Some(true)
    ensures StartTlsRequired in p <==> useTls == Some(true)
    ensures useTls == Some(true) ==> p[StartTlsEnable] == Text("true") && p[StartTlsRequired] == Text("true")
    ensures SslEnable in p <==> useSsl == Some(true)
    ensures useSsl == Some(true) ==> p[SslEnable] == Text("true")
    ensures p.Keys <= {Auth, ConnectionTimeout, Timeout, WriteTimeout, StartTlsEnable, StartTlsRequired, SslEnable}
  {
    var always := map[Auth := Text("true"), ConnectionTimeout := Millis(TimeoutMillis),
                      Timeout := Millis(TimeoutMillis), WriteTimeout := Millis(TimeoutMillis)];
    var tls := if useTls == Some(true) then always[StartTlsEnable := Text("true")][StartTlsRequired := Text("true")] else always;
    if useSsl == Some(true) then tls[SslEnable := Text("true")] else tls
  }

  /**
    createMailSender: a new sender with the account's connection settings
    and decrypted password; a failing decryption is an exception and
    nothing is built.
   */
  method CreateMailSender(s: SmtpAccount, decrypt: string -> Result<string>) returns (r: Result<MailSender>)
    ensures SAS.DecryptPassword(s, decrypt).Err? ==> r == Err(SAS.DecryptPassword(s, decrypt).message)
    ensures SAS.DecryptPassword(s, decrypt).Ok? ==>
              && r.Ok? && fresh(r.value)
              && r.value.host == s.smtpHost && r.value.port == s.smtpPort && r.value.username == s.username
              && r.value.password == SAS.DecryptPassword(s, decrypt).value
              && r.value.properties == SenderProperties(s.useTls, s.useSsl)
  {
    var password := SAS.DecryptPassword(s, decrypt);
    if password.Err? {
      return Err(password.message);
    }
    var sender := new MailSender(s.smtpHost, s.smtpPort, s.username, password.value, SenderProperties(s.useTls, s.useSsl));
    r := Ok(sender);
  }

  class SenderCache {
    /** senderCache: account id to the sender built for it. */
    var senders: map<Uuid, MailSender>

    constructor ()
      ensures senders == map[]
    {
      senders := map[];
    }

    /**
      getMailSender: the cached sender for the account's id when there is
      one, the very same object; otherwise a new sender, which is cached
      under the id.  When building fails the cache is left as it was.
     */
    method GetMailSender(account: SmtpAccount, decrypt: string -> Result<string>) returns (r: Result<MailSender>)
      modifies this
      ensures account.id in old(senders) ==> r == Ok(old(senders)[account.id]) && senders == old(senders)
      ensures account.id !in old(senders) && SAS.DecryptPassword(account, decrypt).Err? ==>
                r == Err(SAS.DecryptPassword(account, decrypt).message) && senders == old(senders)
      ensures account.id !in old(senders) && SAS.DecryptPassword(account, decrypt).Ok? ==>
                && r.Ok? && fresh(r.value)
                && r.value.host == account.smtpHost && r.value.port == account.smtpPort
                && r.value.username == account.username
                && r.value.properties == SenderProperties(account.useTls, account.useSsl)
                && r.value.password == SAS.DecryptPassword(account, decrypt).value
                && senders == old(senders)[account.id := r.value]
    {
      if account.id in senders {
        return Ok(senders[account.id]);
      }
      r := CreateMailSender(account, decrypt);
      if r.Ok? {
        senders := senders[account.id := r.value];
      }
    }

    /** clearCache: only the given id is dropped. */
    method ClearCache(accountId: Uuid)
      modifies this
      ensures senders == old(senders) - {accountId}
    {
      senders := senders - {accountId};
    }

    /** handleSmtpAccountChanged: the event's account is evicted, nothing else. */
    method HandleSmtpAccountChanged(event: SAS.SmtpAccountChanged)
      modifies this
      ensures senders == old(senders) - {event.accountId}
    {
      ClearCache(event.accountId);
    }
  }
}
