/**
  The tenant's SMTP account: one per tenant, saved as an upsert with the
  password stored encrypted, read back as a whole or only while ACTIVE, and
  deactivated on request.  Every save and every deactivation publishes a
  change event naming the account and the tenant.
  Encryption is randomised (a fresh IV per call), so it enters as the
  outcome of the one encrypt call each save makes.
 */
module SmtpAccountService {
  import opened Common
  import opened Entities
  import opened Repositories

  /** SmtpAccountChangedEvent: the account that changed and its tenant. */
  datatype SmtpAccountChanged = SmtpAccountChanged(accountId: Uuid, tenantId: Uuid)

  /** The arguments of saveSmtpAccount other than the tenant and the password. */
  datatype SmtpSettings = SmtpSettings(
    email: string,
    smtpHost: string,
    smtpPort: int,
    username: string,
    useTls: Option<bool>,
    useSsl: Option<bool>,
    fromName: Option<string>)

  /** A Boolean argument with its default when null. */
  function OrElse(b: Option<bool>, default: bool): bool
  {
    if b.Some? then b.value else default
  }

  /**
    The account after the setters of saveSmtpAccount: its identity and
    tenant are kept, every setting is taken from the arguments, TLS defaults
    to on and SSL to off, and the account is ACTIVE again whatever it was.
   */
  function Configured(base: SmtpAccount, settings: SmtpSettings, encryptedPassword: string): (a: SmtpAccount)
    ensures a.id == base.id && a.tenantId == base.tenantId
    ensures a.encryptedPassword == encryptedPassword
    ensures a.status == SmtpAccountStatus.Active
    ensures a.useTls.Some? && a.useSsl.Some?
    ensures settings.useTls.None? ==> a.useTls == Some(true)
    ensures settings.useSsl.None? ==> a.useSsl == Some(false)
    ensures settings.useTls.Some? ==> a.useTls == settings.useTls
    ensures settings.useSsl.Some? ==> a.useSsl == settings.useSsl
  {
    base.(email := settings.email, smtpHost := settings.smtpHost, smtpPort := settings.smtpPort,
          username := settings.username, encryptedPassword := encryptedPassword,
          useTls := Some(OrElse(settings.useTls, true)), useSsl := Some(OrElse(settings.useSsl, false)),
          fromName := settings.fromName, status := SmtpAccountStatus.Active)
  }

  /** The entity the builder makes for a tenant without an account: the column defaults. */
  function NewAccount(id: Uuid, tenantId: Uuid): (r: SmtpAccount)
    ensures r.id == id && r.tenantId == tenantId && r.status == SmtpAccountStatus.Active
    ensures r.useTls == Some(true) && r.useSsl == Some(false) && r.fromName.None?
  {
    SmtpAccount(id, tenantId, "", "", 0, "", "", Some(true), Some(false), None, SmtpAccountStatus.Active)
  }

  class SmtpAccounts {
    const accounts: SmtpAccountRepository
    const tenants: TenantRepository
    /** The change events published so far, oldest first. */
    var published: seq<SmtpAccountChanged>

    constructor (accounts: SmtpAccountRepository, tenants: TenantRepository)
      ensures this.accounts == accounts && this.tenants == tenants && published == []
    {
      this.accounts := accounts;
      this.tenants := tenants;
      published := [];
    }

    /**
      saveSmtpAccount: the password is encrypted first (a failure there is
      "Encryption failed"); the tenant's account is reused, or, when it has
      none, a new one is built if the tenant exists and refused otherwise;
      the settings are applied, the account saved and the change published.
     */
    method SaveSmtpAccount(tenantId: Uuid, settings: SmtpSettings, password: string,
                           encrypt: string -> Result<string>, newId: Uuid) returns (r: Result<SmtpAccount>)
      requires accounts.Valid()
      requires forall t | t in accounts.byTenant :: accounts.byTenant[t].id != newId
      modifies accounts, this
      ensures accounts.Valid()
      ensures encrypt(password).Err? ==>
                r == Err("Encryption failed") && accounts.byTenant == old(accounts.byTenant) && published == old(published)
      ensures encrypt(password).Ok? && tenantId !in old(accounts.byTenant) && tenantId !in tenants.ids ==>
                && r == Err("Tenant not found: " + tenantId)
                && accounts.byTenant == old(accounts.byTenant) && published == old(published)
      ensures encrypt(password).Ok? && (tenantId in old(accounts.byTenant) || tenantId in tenants.ids) ==>
                var base := if tenantId in old(accounts.byTenant) then old(accounts.byTenant)[tenantId] else NewAccount(newId, tenantId);
                && r == Ok(Configured(base, settings, encrypt(password).value))
                && accounts.byTenant == old(accounts.byTenant)[tenantId := r.value]
                && published == old(published) + [SmtpAccountChanged(r.value.id, tenantId)]
    {
      var encrypted := encrypt(password);
      if encrypted.Err? {
        return Err("Encryption failed");
      }
      var existing := accounts.FindByTenantId(tenantId);
      var base: SmtpAccount;
      if existing.Some? {
        base := existing.value;
      } else {
        if tenantId !in tenants.ids {
          return Err("Tenant not found: " + tenantId);
        }
        base := NewAccount(newId, tenantId);
      }
      var saved := Configured(base, settings, encrypted.value);
      accounts.Save(saved);
      published := published + [SmtpAccountChanged(saved.id, tenantId)];
      r := Ok(saved);
    }

    /** getSmtpAccount: the tenant's account, whatever its status. */
    function GetSmtpAccount(tenantId: Uuid): (r: Result<SmtpAccount>)
      reads accounts
      ensures r.Ok? <==> tenantId in accounts.byTenant
      ensures r.Ok? ==> r.value == accounts.byTenant[tenantId]
      ensures r.Err? ==> r.message == "SMTP account not found for tenant: " + tenantId
    {
      match accounts.FindByTenantId(tenantId)
      case Some(a) => Ok(a)
      case None => Err("SMTP account not found for tenant: " + tenantId)
    }

    /** getActiveSmtpAccount: the tenant's account, only while it is ACTIVE. */
    function GetActiveSmtpAccount(tenantId: Uuid): (r: Result<SmtpAccount>)
      reads accounts
      ensures r.Ok? <==> tenantId in accounts.byTenant && accounts.byTenant[tenantId].status == SmtpAccountStatus.Active
      ensures r.Ok? ==> r.value == accounts.byTenant[tenantId]
      ensures r.Err? ==> r.message == "Active SMTP account not found for tenant: " + tenantId
    {
      match accounts.FindActiveByTenantId(tenantId)
      case Some(a) => Ok(a)
      case None => Err("Active SMTP account not found for tenant: " + tenantId)
    }

    /**
      deactivateSmtpAccount: a tenant without an account is refused;
      otherwise only the status changes, to INACTIVE, and the change is
      published.
     */
    method DeactivateSmtpAccount(tenantId: Uuid) returns (r: Result<()>)
      requires accounts.Valid()
      modifies accounts, this
      ensures accounts.Valid()
      ensures tenantId !in old(accounts.byTenant) ==>
                && r == Err("SMTP account not found for tenant: " + tenantId)
                && accounts.byTenant == old(accounts.byTenant) && published == old(published)
      ensures tenantId in old(accounts.byTenant) ==>
                var a := old(accounts.byTenant)[tenantId];
                && r == Ok(())
                && accounts.byTenant == old(accounts.byTenant)[tenantId := a.(status := SmtpAccountStatus.Inactive)]
                && published == old(published) + [SmtpAccountChanged(a.id, tenantId)]
    {
      var found := GetSmtpAccount(tenantId);
      if found.Err? {
        return Err(found.message);
      }
      var a := found.value;
      accounts.Save(a.(status := SmtpAccountStatus.Inactive));
      published := published + [SmtpAccountChanged(a.id, tenantId)];
      r := Ok(());
    }
  }

  /** decryptPassword: the decryption of the stored ciphertext. */
  function DecryptPassword(a: SmtpAccount, decrypt: string -> Result<string>): Result<string>
  {
    decrypt(a.encryptedPassword)
  }
}
