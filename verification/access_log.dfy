/** model/AccessLog and model/GateDevice: the audit entry written for every
    access attempt and the gate it may name. A reference the DAO would write
    as SQL NULL is None here. The entry's id and timestamp are filled in by
    the database and are not part of this model: an entry's position in the
    log stands for its id. */
module AccessLogModel {
  import opened Wrappers

  datatype AccessType = TICKET | ACCREDITATION | BIOMETRIC

  datatype AccessResult = GRANTED | DENIED

  datatype AccessLog = AccessLog(
    userId: Option<int>,
    ticketId: Option<int>,
    gateDeviceId: Option<int>,
    accessType: AccessType,
    accessResult: AccessResult,
    denialReason: Option<string>,
    ipAddress: Option<string>)
}

module GateDeviceModel {

  datatype DeviceType = ENTRANCE | EXIT | VIP

  datatype GateDevice = GateDevice(
    id: int,
    deviceName: string,
    deviceLocation: string,
    deviceType: DeviceType,
    isActive: bool)
}

/** The user and role records as UserDAO and RoleDAO read them. */
module UserModel {
  import opened Wrappers

  datatype Role = Role(id: int, name: string)

  datatype User = User(
    id: int,
    username: string,
    email: string,
    passwordHash: string,
    firstName: string,
    lastName: string,
    phone: string,
    role: Option<Role>,
    active: bool)
}
